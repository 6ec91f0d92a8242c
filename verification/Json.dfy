/**
 Field extraction from JSON text by substring search.  A C string is the characters before its
 terminator.
 */
module Json {

  // ---- libc -------------------------------------------------------------------------------------------

  predicate MatchesAt(s: string, p: nat, pat: string) { p + |pat| <= |s| && s[p..p + |pat|] == pat }

  /** strstr: the first match, or -1. */
  function Strstr(s: string, pat: string): (r: int)
    ensures r >= 0 ==> r + |pat| <= |s|
  {
    if MatchesAt(s, 0, pat) then 0
    else if s == "" then -1
    else
      var r := Strstr(s[1..], pat);
      if r < 0 then -1 else r + 1
  }

  lemma ShiftMatch(s: string, p: nat, pat: string)
    requires p > 0 && s != ""
    ensures MatchesAt(s, p, pat) <==> MatchesAt(s[1..], p - 1, pat)
  {
    if p + |pat| <= |s| {
      assert s[p..p + |pat|] == s[1..][p - 1..p - 1 + |pat|];
    }
  }

  /** The index is a match, and nothing before it is; -1 says there is none. */
  lemma {:induction false} StrstrIsFirst(s: string, pat: string, p: nat)
    ensures MatchesAt(s, p, pat) ==> 0 <= Strstr(s, pat) <= p
    ensures Strstr(s, pat) >= 0 ==> MatchesAt(s, Strstr(s, pat), pat)
  {
    hide MatchesAt;
    if !MatchesAt(s, 0, pat) {
      if s != "" {
        var r := Strstr(s[1..], pat);
        StrstrIsFirst(s[1..], pat, if p > 0 then p - 1 else 0);
        if r >= 0 {
          ShiftMatch(s, r + 1, pat);
        }
        if p > 0 {
          ShiftMatch(s, p, pat);
        }
      } else if p > 0 {
        NoMatchInNothing(pat, p);
      }
    }
  }

  lemma NoMatchInNothing(pat: string, p: nat)
    requires p > 0
    ensures !MatchesAt("", p, pat)
  {}

  predicate IsSpace(c: char) { c == ' ' || '\t' <= c <= '\r' }
  predicate IsDigit(c: char) { '0' <= c <= '9' }

  function DigitRun(s: string): (n: nat)
    ensures n <= |s| && (forall i | 0 <= i < n :: IsDigit(s[i])) && (n < |s| ==> !IsDigit(s[n]))
  {
    if s == "" || !IsDigit(s[0]) then 0 else 1 + DigitRun(s[1..])
  }

  function Numeral(ds: string): nat
    requires forall i | 0 <= i < |ds| :: IsDigit(ds[i])
  {
    if ds == "" then 0 else 10 * Numeral(ds[..|ds| - 1]) + DigitValue(ds[|ds| - 1])
  }

  function DigitValue(c: char): nat
    requires IsDigit(c)
  {
    c as int - '0' as int
  }

  function SkipSpace(s: string): string { if s != "" && IsSpace(s[0]) then SkipSpace(s[1..]) else s }

  datatype Number = NoNumber | Number(negative: bool, magnitude: nat)

  /** What strtoul and strtoll read in base ten. */
  function Strto(s: string): Number {
    var t := SkipSpace(s);
    var signed := t != "" && (t[0] == '-' || t[0] == '+');
    var u := if signed then t[1..] else t;
    if DigitRun(u) == 0 then NoNumber else Number(signed && t[0] == '-', Numeral(u[..DigitRun(u)]))
  }

  const U32: nat := 0x1_0000_0000
  const U64: nat := 0x1_0000_0000_0000_0000
  const I64_MAX: int := 0x7FFF_FFFF_FFFF_FFFF

  /** strtoul saturates at ULONG_MAX and negates in unsigned arithmetic; the cast keeps 32 bits. */
  function ToU32(n: Number): (v: nat)
    requires n.Number?
    ensures v < U32
  {
    var u := if n.magnitude >= U64 then U64 - 1 else if n.negative then (U64 - n.magnitude) % U64 else n.magnitude;
    u % U32
  }

  /** strtoll saturates at both ends. */
  function ToI64(n: Number): (v: int)
    requires n.Number?
    ensures -I64_MAX - 1 <= v <= I64_MAX
  {
    var m: int := n.magnitude;
    if n.negative then if m > I64_MAX + 1 then -I64_MAX - 1 else -m
    else if m > I64_MAX then I64_MAX else m
  }

  function SignedValue(n: Number): int
    requires n.Number?
  {
    var m: int := n.magnitude;
    if n.negative then -m else m
  }

  /**
   The numbers behind the casts: a signed field is cut off at the ends of 64 bits; an unsigned one
   is the value modulo 2^32, or all ones when its digits alone exceed 64 bits.
   */
  lemma Conversions(n: Number)
    requires n.Number?
    ensures var v := SignedValue(n);
      && (-0x8000_0000_0000_0000 <= v <= 0x7FFF_FFFF_FFFF_FFFF ==> ToI64(n) == v)
      && (v > 0x7FFF_FFFF_FFFF_FFFF ==> ToI64(n) == 0x7FFF_FFFF_FFFF_FFFF)
      && (v < -0x8000_0000_0000_0000 ==> ToI64(n) == -0x8000_0000_0000_0000)
      && (n.magnitude < 0x1_0000_0000_0000_0000 ==> ToU32(n) == v % 0x1_0000_0000)
      && (n.magnitude >= 0x1_0000_0000_0000_0000 ==> ToU32(n) == 0xFFFF_FFFF)
  {
    if n.negative && 0 < n.magnitude < U64 {
      assert (U64 - n.magnitude) % U64 == U64 - n.magnitude;
      WholeTurns(SignedValue(n), 0x1_0000_0000);
    }
  }

  lemma WholeTurns(v: int, k: nat)
    ensures (v + k * U32) % U32 == v % U32
  {
    if k > 0 {
      WholeTurns(v, k - 1);
      assert v + k * U32 == (v + (k - 1) * U32) + U32;
    }
  }

  // ---- the extraction functions, as what they return -------------------------------------------------------

  function Pattern(key: string): (p: string)
    ensures |p| == |key| + 3
  {
    "\"" + key + "\":"
  }

  datatype Found = Missing | Found(rest: string)

  /** The text after the first match of the key's pattern. */
  function After(json: string, key: string): Found {
    var p := Strstr(json, Pattern(key));
    if p < 0 then Missing else Found(json[p + |Pattern(key)|..])
  }

  predicate IsBlank(c: char) { c == ' ' || c == '\t' || c == '\n' || c == '\r' }

  function SkipBlanks(s: string): string { if s != "" && IsBlank(s[0]) then SkipBlanks(s[1..]) else s }
  function SkipSpaces(s: string): string { if s != "" && s[0] == ' ' then SkipSpaces(s[1..]) else s }

  /** Spaces, tabs and line ends in front of a value are passed over, and nothing else is. */
  lemma {:induction false} BlanksPassed(s: string)
    ensures var n := |s| - |SkipBlanks(s)|;
      && 0 <= n && SkipBlanks(s) == s[n..]
      && (forall i | 0 <= i < n :: s[i] == ' ' || s[i] == '\t' || s[i] == '\n' || s[i] == '\r')
      && (n < |s| ==> s[n] != ' ' && s[n] != '\t' && s[n] != '\n' && s[n] != '\r')
  {
    if s != "" && IsBlank(s[0]) {
      BlanksPassed(s[1..]);
    }
  }

  /** Characters before the first quote, or all. */
  function QuoteFreeRun(s: string): (n: nat)
    ensures n <= |s| && (forall i | 0 <= i < n :: s[i] != '"') && (n < |s| ==> s[n] == '"')
  {
    if s == "" || s[0] == '"' then 0 else 1 + QuoteFreeRun(s[1..])
  }

  /** Whether a string field was read in full, and what is in the caller's buffer either way. */
  datatype StrResult = StrResult(ok: bool, text: string)

  function ReadString(value: string, size: nat, old_: string): StrResult
    requires size > 0
  {
    var t := SkipBlanks(value);
    if t == "" || t[0] != '"' then StrResult(false, old_) else Copied(t[1..], size)
  }

  /** Up to the next quote, if there is one and the buffer holds what is before it. */
  function Copied(body: string, size: nat): (r: StrResult)
    requires size > 0
    ensures r.text <= body && |r.text| < size && forall i | 0 <= i < |r.text| :: r.text[i] != '"'
    ensures r.ok <==> |r.text| < |body| && body[|r.text|] == '"'
    ensures !r.ok ==> |r.text| == size - 1 || |r.text| == |body|
  {
    var n := QuoteFreeRun(body);
    if n < size then StrResult(n < |body|, body[..n]) else StrResult(false, body[..size - 1])
  }

  function StrField(json: string, key: string, size: nat, old_: string): StrResult
    requires size > 0
  {
    var a := After(json, key);
    if a.Missing? then StrResult(false, old_) else ReadString(a.rest, size, old_)
  }

  function NumField(json: string, key: string): Number {
    var a := After(json, key);
    if a.Missing? then NoNumber else Strto(SkipSpaces(a.rest))
  }

  function ReadObject(value: string): Found {
    var t := SkipBlanks(value);
    if t != "" && t[0] == '{' then Found(t[1..]) else Missing
  }

  function ObjField(json: string, key: string): Found {
    var a := After(json, key);
    if a.Missing? then Missing else ReadObject(a.rest)
  }

  // ---- the loops -------------------------------------------------------------------------------------------

  lemma SuffixStep(s: string, p: nat)
    requires p < |s|
    ensures s[p..] == [s[p]] + s[p + 1..] && s[p..][0] == s[p] && s[p..][1..] == s[p + 1..]
  {}

  method SkipTo(json: string, from: nat, onlySpaces: bool) returns (p: nat)
    requires from <= |json|
    ensures from <= p <= |json| && json[p..] == if onlySpaces then SkipSpaces(json[from..]) else SkipBlanks(json[from..])
  {
    p := from;
    while p < |json| && (if onlySpaces then json[p] == ' ' else IsBlank(json[p]))
      invariant from <= p <= |json|
      invariant SkipSpaces(json[from..]) == SkipSpaces(json[p..]) || !onlySpaces
      invariant SkipBlanks(json[from..]) == SkipBlanks(json[p..]) || onlySpaces
      decreases |json| - p
    {
      SuffixStep(json, p);
      p := p + 1;
    }
    if p < |json| { SuffixStep(json, p); }
  }

  /** Copies up to size - 1 characters, stopping at a quote or the end. */
  method CopyString(json: string, from: nat, size: nat) returns (r: StrResult)
    requires size > 0 && from <= |json|
    ensures r == Copied(json[from..], size)
  {
    var out := "";
    var i := from;
    ghost var body := json[from..];
    while i < |json| && json[i] != '"' && |out| + 1 < size
      invariant from <= i <= |json| && |out| == i - from && |out| < size
      invariant out == body[..|out|] && |out| <= QuoteFreeRun(body)
      decreases |json| - i
    {
      assert json[i] == body[|out|];
      out := out + [json[i]];
      i := i + 1;
    }
    if i < |json| { assert json[i] == body[|out|]; }
    return StrResult(i < |json| && json[i] == '"', out);
  }

  method JsonGetStr(json: string, key: string, size: nat, old_: string) returns (r: StrResult)
    requires size > 0
    ensures r == StrField(json, key, size, old_)
  {
    hide Strstr, Copied, SkipBlanks, Pattern;
    var p := Strstr(json, Pattern(key));
    if p < 0 { return StrResult(false, old_); }
    var q := SkipTo(json, p + |Pattern(key)|, false);
    if q == |json| { return StrResult(false, old_); }
    SuffixStep(json, q);
    if json[q] != '"' { return StrResult(false, old_); }
    r := CopyString(json, q + 1, size);
  }

  method JsonGetNumber(json: string, key: string) returns (n: Number)
    ensures n == NumField(json, key)
  {
    hide Strstr, Strto, SkipSpaces, Pattern;
    var p := Strstr(json, Pattern(key));
    if p < 0 { return NoNumber; }
    var q := SkipTo(json, p + |Pattern(key)|, true);
    return Strto(json[q..]);
  }

  method JsonFindObj(json: string, key: string) returns (f: Found)
    ensures f == ObjField(json, key)
  {
    hide Strstr, SkipBlanks, Pattern;
    var p := Strstr(json, Pattern(key));
    if p < 0 { return Missing; }
    var q := SkipTo(json, p + |Pattern(key)|, false);
    if q == |json| { return Missing; }
    SuffixStep(json, q);
    return if json[q] == '{' then Found(json[q + 1..]) else Missing;
  }

  // ---- searching past text that cannot match ---------------------------------------------------------------

  predicate QuoteFree(s: string) { forall i | 0 <= i < |s| :: s[i] != '"' }

  /** A key starts with a letter and holds no quote. */
  predicate IsKey(key: string) { key != "" && 'a' <= key[0] <= 'z' && QuoteFree(key) }

  lemma SkipOne(s: string, key: string)
    requires s != "" && !MatchesAt(s, 0, Pattern(key))
    ensures After(s, key) == After(s[1..], key)
  {
    hide MatchesAt, Pattern;
    var r, n := Strstr(s[1..], Pattern(key)), |Pattern(key)|;
    if r >= 0 {
      assert s[r + 1 + n..] == s[1..][r + n..];
    }
  }

  /** Text without quotes is passed over. */
  lemma {:induction false} SkipPlain(x: string, rest: string, key: string)
    requires QuoteFree(x)
    ensures After(x + rest, key) == After(rest, key)
    decreases |x|
  {
    hide After;
    if x == "" {
      assert x + rest == rest;
    } else {
      NoQuoteNoMatch(x + rest, key);
      SkipOne(x + rest, key);
      assert (x + rest)[1..] == x[1..] + rest;
      SkipPlain(x[1..], rest, key);
    }
  }

  lemma NoQuoteNoMatch(s: string, key: string)
    requires s != "" && s[0] != '"'
    ensures !MatchesAt(s, 0, Pattern(key))
  {
    assert Pattern(key)[0] == '"';
  }

  /** A quoted string is passed over unless it is the key with a colon behind it. */
  lemma SkipQuoted(v: string, rest: string, key: string)
    requires QuoteFree(v) && IsKey(key) && rest != "" && !('a' <= rest[0] <= 'z') && (rest[0] == ':' ==> v != key)
    ensures After("\"" + v + "\"" + rest, key) == After(rest, key)
  {
    hide After;
    var s := "\"" + v + "\"" + rest;
    OpeningQuote(v, rest, key);
    SkipOne(s, key);
    assert s[1..] == v + ("\"" + rest);
    SkipPlain(v, "\"" + rest, key);
    ClosingQuote(rest, key);
    SkipOne("\"" + rest, key);
    assert ("\"" + rest)[1..] == rest;
  }

  lemma Mismatch(s: string, pat: string, i: nat)
    requires i < |s| && i < |pat| && s[i] != pat[i]
    ensures !MatchesAt(s, 0, pat)
  {
    if |pat| <= |s| {
      assert s[0..|pat|][i] == s[i];
    }
  }

  lemma ClosingQuote(rest: string, key: string)
    requires IsKey(key) && rest != "" && !('a' <= rest[0] <= 'z')
    ensures !MatchesAt("\"" + rest, 0, Pattern(key))
  {
    Mismatch("\"" + rest, Pattern(key), 1);
  }

  lemma OpeningQuote(v: string, rest: string, key: string)
    requires QuoteFree(v) && QuoteFree(key) && rest != "" && (rest[0] == ':' ==> v != key)
    ensures !MatchesAt("\"" + v + "\"" + rest, 0, Pattern(key))
  {
    hide MatchesAt;
    var s, pat := "\"" + v + "\"" + rest, Pattern(key);
    if |v| < |key| {
      Mismatch(s, pat, |v| + 1);
    } else if |v| > |key| {
      Mismatch(s, pat, |key| + 1);
    } else if v == key {
      Mismatch(s, pat, |v| + 2);
    } else {
      var i: nat :| i < |v| && v[i] != key[i];
      Mismatch(s, pat, i + 1);
    }
  }

  lemma FoundHere(key: string, rest: string)
    ensures After(Pattern(key) + rest, key) == Found(rest)
  {
    var s := Pattern(key) + rest;
    assert s[0..|Pattern(key)|] == Pattern(key);
    assert MatchesAt(s, 0, Pattern(key));
    assert Strstr(s, Pattern(key)) == 0;
    assert s[|Pattern(key)|..] == rest;
  }
}
