/**
 * JavaScript strings as sequences of UTF-16 code units, the string quoting of JSON.stringify, the
 * decimal form of integers, and the UTF-8 encoding performed by TextEncoder.
 */
module JsText {
  import opened Bytes

  type Unit = u: int | 0 <= u < 0x10000

  type Text = seq<Unit>

  const QUOTE: Unit := 34
  const COMMA: Unit := 44
  const COLON: Unit := 58
  const OPEN_BRACKET: Unit := 91
  const BACKSLASH: Unit := 92
  const CLOSE_BRACKET: Unit := 93
  const OPEN_BRACE: Unit := 123
  const CLOSE_BRACE: Unit := 125

  /** The text of a Dafny literal. */
  function Literal(s: string): (t: Text)
    ensures |t| == |s| && forall i :: 0 <= i < |s| && s[i] as int < 0x10000 ==> t[i] == s[i] as int
  {
    seq(|s|, i requires 0 <= i < |s| => if s[i] as int < 0x10000 then s[i] as int else 0xFFFD)
  }

  predicate IsHigh(u: Unit) {
    0xD800 <= u < 0xDC00
  }

  predicate IsLow(u: Unit) {
    0xDC00 <= u < 0xE000
  }

  predicate IsSurrogate(u: Unit) {
    0xD800 <= u < 0xE000
  }

  predicate StartsWithPair(s: Text) {
    |s| >= 2 && IsHigh(s[0]) && IsLow(s[1])
  }

  /** Every surrogate of s belongs to a pair. */
  predicate WellFormed(s: Text) {
    s == [] ||
    (if StartsWithPair(s) then WellFormed(s[2..]) else !IsSurrogate(s[0]) && WellFormed(s[1..]))
  }

  lemma {:induction false} WellFormedConcat(a: Text, b: Text)
    requires WellFormed(a) && WellFormed(b)
    ensures WellFormed(a + b)
  {
    if a == [] {
      assert a + b == b;
    } else if StartsWithPair(a) {
      WellFormedConcat(a[2..], b);
      assert (a + b)[2..] == a[2..] + b;
    } else {
      WellFormedConcat(a[1..], b);
      assert (a + b)[1..] == a[1..] + b;
    }
  }

  lemma {:induction false} PlainIsWellFormed(s: Text)
    requires forall i :: 0 <= i < |s| ==> !IsSurrogate(s[i])
    ensures WellFormed(s)
  {
    if s != [] {
      PlainIsWellFormed(s[1..]);
    }
  }

  lemma SplitEqual<T>(a: seq<T>, b: seq<T>, r: seq<T>, q: seq<T>)
    requires |a| == |b| && a + r == b + q
    ensures a == b && r == q
  {
    assert a == (a + r)[..|a|] && b == (b + q)[..|a|];
    assert r == (a + r)[|a|..] && q == (b + q)[|a|..];
  }

  lemma Assoc<T>(a: seq<T>, m: seq<T>, r: seq<T>)
    ensures (a + m) + r == a + (m + r)
  {
  }

  lemma Regroup<T>(a: seq<T>, m: seq<T>, r: seq<T>, b: seq<T>, n: seq<T>, q: seq<T>)
    requires |a| == |b| && (a + m) + r == (b + n) + q
    ensures a == b && m + r == n + q
  {
    assert (a + m) + r == a + (m + r) && (b + n) + q == b + (n + q);
    SplitEqual(a, b, m + r, n + q);
  }

  // ----- JSON string quoting -----

  function HexDigit(n: int): Unit
    requires 0 <= n < 16
  {
    if n < 10 then 48 + n else 87 + n
  }

  function UnicodeEscape(u: Unit): Text {
    [BACKSLASH, 117, HexDigit(u / 4096), HexDigit(u / 256 % 16), HexDigit(u / 16 % 16), HexDigit(u % 16)]
  }

  /** The second unit of a two-unit escape such as \n, or 0 when u has none. */
  function ShortEscape(u: Unit): Unit {
    if u == 8 then 98
    else if u == 9 then 116
    else if u == 10 then 110
    else if u == 12 then 102
    else if u == 13 then 114
    else if u == QUOTE then QUOTE
    else if u == BACKSLASH then BACKSLASH
    else 0
  }

  /** How JSON.stringify writes a unit that is not part of a surrogate pair. */
  function EscapeUnit(u: Unit): Text {
    if ShortEscape(u) != 0 then [BACKSLASH, ShortEscape(u)]
    else if u < 32 || IsSurrogate(u) then UnicodeEscape(u)
    else [u]
  }

  /** The escaped contents of s and the closing quote. */
  function QuoteTail(s: Text): Text {
    if s == [] then [QUOTE]
    else if StartsWithPair(s) then s[..2] + QuoteTail(s[2..])
    else EscapeUnit(s[0]) + QuoteTail(s[1..])
  }

  function Quote(s: Text): Text {
    [QUOTE] + QuoteTail(s)
  }

  lemma HexInjective(m: int, n: int)
    requires 0 <= m < 16 && 0 <= n < 16 && HexDigit(m) == HexDigit(n)
    ensures m == n
  {
  }

  lemma HexDigits(u: int, v: int)
    requires 0 <= u && 0 <= v
    requires u / 4096 == v / 4096 && u / 256 % 16 == v / 256 % 16
    requires u / 16 % 16 == v / 16 % 16 && u % 16 == v % 16
    ensures u == v
  {
    assert u / 16 / 16 == u / 256 && v / 16 / 16 == v / 256;
    assert u / 256 / 16 == u / 4096 && v / 256 / 16 == v / 4096;
  }

  lemma UnicodeEscapeInjective(u: Unit, v: Unit)
    requires UnicodeEscape(u) == UnicodeEscape(v)
    ensures u == v
  {
    var a, b := UnicodeEscape(u), UnicodeEscape(v);
    assert a[2] == b[2] && a[3] == b[3] && a[4] == b[4] && a[5] == b[5];
    HexInjective(u / 4096, v / 4096);
    HexInjective(u / 256 % 16, v / 256 % 16);
    HexInjective(u / 16 % 16, v / 16 % 16);
    HexInjective(u % 16, v % 16);
    HexDigits(u, v);
  }

  lemma EscapeUnitSameLength(u: Unit, v: Unit, r: Text, q: Text)
    requires EscapeUnit(u) + r == EscapeUnit(v) + q
    ensures |EscapeUnit(u)| == |EscapeUnit(v)|
  {
    var a, b := EscapeUnit(u), EscapeUnit(v);
    assert a[0] == (a + r)[0] == (b + q)[0] == b[0];
    if |a| > 1 && |b| > 1 {
      assert a[1] == (a + r)[1] == (b + q)[1] == b[1];
    }
  }

  lemma EscapeUnitInjective(u: Unit, v: Unit, r: Text, q: Text)
    requires EscapeUnit(u) + r == EscapeUnit(v) + q
    ensures u == v && r == q
  {
    EscapeUnitSameLength(u, v, r, q);
    SplitEqual(EscapeUnit(u), EscapeUnit(v), r, q);
    if |EscapeUnit(u)| == 6 {
      UnicodeEscapeInjective(u, v);
    }
  }

  lemma EscapeUnitStart(u: Unit)
    ensures EscapeUnit(u) != [] && EscapeUnit(u)[0] != QUOTE && !IsSurrogate(EscapeUnit(u)[0])
    ensures WellFormed(EscapeUnit(u))
  {
    PlainIsWellFormed(EscapeUnit(u));
  }

  lemma QuoteTailStart(s: Text)
    ensures |QuoteTail(s)| >= 1
    ensures QuoteTail(s)[0] == QUOTE <==> s == []
    ensures IsSurrogate(QuoteTail(s)[0]) <==> StartsWithPair(s)
  {
    if s != [] {
      EscapeUnitStart(s[0]);
    }
  }

  /** Quoted strings form a prefix code: the string and what follows it can be read back. */
  lemma {:induction false} QuoteTailInjective(s: Text, t: Text, r: Text, q: Text)
    requires QuoteTail(s) + r == QuoteTail(t) + q
    ensures s == t && r == q
  {
    QuoteTailStart(s);
    QuoteTailStart(t);
    assert QuoteTail(s)[0] == (QuoteTail(s) + r)[0] == (QuoteTail(t) + q)[0] == QuoteTail(t)[0];
    if s == [] {
      SplitEqual([QUOTE], [QUOTE], r, q);
    } else if StartsWithPair(s) {
      Regroup(s[..2], QuoteTail(s[2..]), r, t[..2], QuoteTail(t[2..]), q);
      QuoteTailInjective(s[2..], t[2..], r, q);
      assert s == s[..2] + s[2..] && t == t[..2] + t[2..];
    } else {
      QuoteStep(s, t, r, q);
      QuoteTailInjective(s[1..], t[1..], r, q);
      assert s == [s[0]] + s[1..] && t == [t[0]] + t[1..];
    }
  }

  lemma QuoteStep(s: Text, t: Text, r: Text, q: Text)
    requires s != [] && t != [] && !StartsWithPair(s) && !StartsWithPair(t)
    requires QuoteTail(s) + r == QuoteTail(t) + q
    ensures s[0] == t[0] && QuoteTail(s[1..]) + r == QuoteTail(t[1..]) + q
  {
    Assoc(EscapeUnit(s[0]), QuoteTail(s[1..]), r);
    Assoc(EscapeUnit(t[0]), QuoteTail(t[1..]), q);
    EscapeUnitInjective(s[0], t[0], QuoteTail(s[1..]) + r, QuoteTail(t[1..]) + q);
  }

  lemma {:induction false} QuoteTailWellFormed(s: Text)
    ensures WellFormed(QuoteTail(s)) && |QuoteTail(s)| >= |s| + 1
  {
    if s != [] {
      if StartsWithPair(s) {
        QuoteTailWellFormed(s[2..]);
        assert QuoteTail(s)[2..] == QuoteTail(s[2..]);
      } else {
        QuoteTailWellFormed(s[1..]);
        EscapeUnitStart(s[0]);
        WellFormedConcat(EscapeUnit(s[0]), QuoteTail(s[1..]));
      }
    }
  }

  // ----- Reading a JSON string -----

  /** The value of a hexadecimal digit of either case, or -1. */
  function HexValue(u: Unit): int {
    if 48 <= u < 58 then u - 48
    else if 65 <= u < 71 then u - 55
    else if 97 <= u < 103 then u - 87
    else -1
  }

  /** What a backslash before this unit stands for, or -1 (section 7 of RFC 8259). */
  function EscapeValue(u: Unit): int {
    if u == 34 || u == 92 || u == 47 then u
    else if u == 98 then 8
    else if u == 102 then 12
    else if u == 110 then 10
    else if u == 114 then 13
    else if u == 116 then 9
    else -1
  }

  /** Reads one character of a JSON string; the closing quote is not one. */
  function ReadChar(t: Text): (r: Option<(Unit, Text)>)
    ensures r.Some? ==> |r.value.1| < |t|
  {
    if t == [] || t[0] < 32 || t[0] == 34 then None
    else if t[0] != 92 then Some((t[0], t[1..]))
    else if |t| >= 2 && EscapeValue(t[1]) >= 0 then Some((EscapeValue(t[1]), t[2..]))
    else if |t| >= 6 && t[1] == 117 && HexValue(t[2]) >= 0 && HexValue(t[3]) >= 0
            && HexValue(t[4]) >= 0 && HexValue(t[5]) >= 0 then
      Some((HexValue(t[2]) * 4096 + HexValue(t[3]) * 256 + HexValue(t[4]) * 16 + HexValue(t[5]), t[6..]))
    else None
  }

  /** Reads a JSON string after its opening quote; gives its contents and what follows the closing quote. */
  function ReadString(t: Text): (r: Option<(Text, Text)>)
    ensures r.Some? ==> |r.value.1| < |t|
    decreases |t|
  {
    if t != [] && t[0] == 34 then Some(([], t[1..]))
    else
      var c := ReadChar(t);
      if c.None? then None
      else
        var more := ReadString(c.value.1);
        if more.None? then None else Some(([c.value.0] + more.value.0, more.value.1))
  }

  lemma HexSum(u: Unit)
    ensures u / 4096 * 4096 + u / 256 % 16 * 256 + u / 16 % 16 * 16 + u % 16 == u
  {
    assert u / 16 / 16 == u / 256 && u / 256 / 16 == u / 4096;
  }

  lemma ReadUnicodeEscape(u: Unit, r: Text)
    ensures ReadChar(UnicodeEscape(u) + r) == Some((u, r))
  {
    HexSum(u);
    assert (UnicodeEscape(u) + r)[6..] == r;
  }

  lemma ReadEscaped(u: Unit, r: Text)
    ensures ReadChar(EscapeUnit(u) + r) == Some((u, r))
  {
    if ShortEscape(u) != 0 {
      assert ([BACKSLASH, ShortEscape(u)] + r)[2..] == r;
    } else if u < 32 || IsSurrogate(u) {
      ReadUnicodeEscape(u, r);
    } else {
      assert ([u] + r)[1..] == r;
    }
  }

  lemma ReadPlain(u: Unit, r: Text)
    requires IsSurrogate(u)
    ensures ReadChar([u] + r) == Some((u, r))
  {
    assert ([u] + r)[1..] == r;
  }

  /** A standard reader gets back the string and what follows it. */
  lemma {:induction false} ReadQuoteTail(s: Text, r: Text)
    ensures ReadString(QuoteTail(s) + r) == Some((s, r))
  {
    if s == [] {
      assert (QuoteTail(s) + r)[1..] == r;
    } else if StartsWithPair(s) {
      ReadQuoteTail(s[2..], r);
      Assoc(s[..2], QuoteTail(s[2..]), r);
      ReadPlainPair(s[0], s[1], s[2..], QuoteTail(s[2..]) + r, r);
      assert s[..2] == [s[0], s[1]] && s == [s[0], s[1]] + s[2..];
    } else {
      ReadQuoteTail(s[1..], r);
      ReadEscaped(s[0], QuoteTail(s[1..]) + r);
      Assoc(EscapeUnit(s[0]), QuoteTail(s[1..]), r);
      ReadOne(EscapeUnit(s[0]) + (QuoteTail(s[1..]) + r), s[0], s[1..], QuoteTail(s[1..]) + r, r);
      assert s == [s[0]] + s[1..];
    }
  }

  /** A text whose first character can be read is read on from there. */
  lemma ReadOne(t: Text, u: Unit, s: Text, rest: Text, r: Text)
    requires ReadChar(t) == Some((u, rest)) && ReadString(rest) == Some((s, r))
    ensures ReadString(t) == Some(([u] + s, r))
  {
  }

  lemma ReadPlainPair(h: Unit, l: Unit, s: Text, rest: Text, r: Text)
    requires IsSurrogate(h) && IsSurrogate(l) && ReadString(rest) == Some((s, r))
    ensures ReadString([h, l] + rest) == Some(([h, l] + s, r))
  {
    ReadPlain(l, rest);
    ReadPlain(h, [l] + rest);
    ReadOne([l] + rest, l, s, rest, r);
    ReadOne([h] + ([l] + rest), h, [l] + s, [l] + rest, r);
    assert [h, l] + rest == [h] + ([l] + rest) && [h, l] + s == [h] + ([l] + s);
  }

  /**
   * Which of the readable forms JSON.stringify writes for an unpaired unit: itself where that is possible and it
   * is no surrogate, else a short escape where there is one, else \uXXXX in lower case.
   */
  lemma EscapeForms(u: Unit)
    ensures EscapeUnit(u) == [u] <==> u >= 32 && u != 34 && u != 92 && !(0xD800 <= u < 0xE000)
    ensures |EscapeUnit(u)| == 2 <==> u in {8, 9, 10, 12, 13, 34, 92}
    ensures |EscapeUnit(u)| == 1 || |EscapeUnit(u)| == 2 || |EscapeUnit(u)| == 6
    ensures |EscapeUnit(u)| > 1 ==> forall i :: 0 <= i < |EscapeUnit(u)| ==> !(65 <= EscapeUnit(u)[i] < 91)
  {
  }

  /** A text without quotes, backslashes, control characters and lone surrogates is written as it is. */
  lemma {:induction false} QuotePlain(s: Text)
    requires WellFormed(s) && forall i :: 0 <= i < |s| ==> s[i] >= 32 && s[i] != 34 && s[i] != 92
    ensures Quote(s) == [34] + s + [34]
  {
    QuoteTailPlain(s);
  }

  lemma {:induction false} QuoteTailPlain(s: Text)
    requires WellFormed(s) && forall i :: 0 <= i < |s| ==> s[i] >= 32 && s[i] != 34 && s[i] != 92
    ensures QuoteTail(s) == s + [34]
  {
    if s != [] {
      if StartsWithPair(s) {
        QuoteTailPlain(s[2..]);
      } else {
        QuoteTailPlain(s[1..]);
        EscapeForms(s[0]);
      }
    }
  }

  // ----- TextEncoder -----

  /** The code point of a surrogate pair. */
  function PairCodePoint(h: Unit, l: Unit): (c: int)
    requires IsHigh(h) && IsLow(l)
    ensures 0x10000 <= c < 0x110000
  {
    0x10000 + (h - 0xD800) * 0x400 + (l - 0xDC00)
  }

  function PairBytes(h: Unit, l: Unit): (b: Bytes)
    requires IsHigh(h) && IsLow(l)
  {
    var c := PairCodePoint(h, l);
    [240 + c / 262144, 128 + c / 4096 % 64, 128 + c / 64 % 64, 128 + c % 64]
  }

  /** The bytes of one unpaired unit; a lone surrogate becomes U+FFFD. */
  function UnitBytes(u: Unit): Bytes {
    if u < 0x80 then [u]
    else if u < 0x800 then [192 + u / 64, 128 + u % 64]
    else if IsSurrogate(u) then [239, 191, 189]
    else [224 + u / 4096, 128 + u / 64 % 64, 128 + u % 64]
  }

  /** TextEncoder.encode */
  function Utf8(s: Text): (b: Bytes)
    ensures |b| >= |s|
  {
    if s == [] then []
    else if StartsWithPair(s) then PairBytes(s[0], s[1]) + Utf8(s[2..])
    else UnitBytes(s[0]) + Utf8(s[1..])
  }

  /** TextEncoder loses information: two different lone surrogates have the same encoding. */
  lemma Utf8IsLossy()
    ensures Utf8([0xD800]) == Utf8([0xD801]) && !WellFormed([0xD800])
  {
  }

  // ----- Reading UTF-8 -----

  predicate IsContinuation(b: Byte) {
    0x80 <= b < 0xC0
  }

  /** The UTF-16 form of a code point. */
  function CodePointUnits(c: int): Text
    requires 0 <= c < 0x110000
  {
    if c < 0x10000 then [c] else [0xD800 + (c - 0x10000) / 0x400, 0xDC00 + (c - 0x10000) % 0x400]
  }

  /** Reads one code point in its shortest form (section 3 of RFC 3629); surrogates are not code points there. */
  function ReadCodePoint(b: Bytes): (r: Option<(int, Bytes)>)
    ensures r.Some? ==> 0 <= r.value.0 < 0x110000 && |r.value.1| < |b|
  {
    if b == [] then None
    else if b[0] < 0x80 then Some((b[0], b[1..]))
    else if 0xC2 <= b[0] < 0xE0 && |b| >= 2 && IsContinuation(b[1]) then
      Some(((b[0] as int - 0xC0) * 64 + (b[1] as int - 0x80), b[2..]))
    else if 0xE0 <= b[0] < 0xF0 && |b| >= 3 && IsContinuation(b[1]) && IsContinuation(b[2]) then
      var c := (b[0] as int - 0xE0) * 4096 + (b[1] as int - 0x80) * 64 + (b[2] as int - 0x80);
      if c < 0x800 || 0xD800 <= c < 0xE000 then None else Some((c, b[3..]))
    else if 0xF0 <= b[0] < 0xF5 && |b| >= 4 && IsContinuation(b[1]) && IsContinuation(b[2]) && IsContinuation(b[3]) then
      var c := (b[0] as int - 0xF0) * 262144 + (b[1] as int - 0x80) * 4096
               + (b[2] as int - 0x80) * 64 + (b[3] as int - 0x80);
      if c < 0x10000 || c >= 0x110000 then None else Some((c, b[4..]))
    else None
  }

  function ReadUtf8(b: Bytes): Option<Text>
    decreases |b|
  {
    if b == [] then Some([])
    else
      var c := ReadCodePoint(b);
      if c.None? then None
      else
        var more := ReadUtf8(c.value.1);
        if more.None? then None else Some(CodePointUnits(c.value.0) + more.value)
  }

  /** The text in which each lone surrogate is replaced by U+FFFD. */
  function ToWellFormed(s: Text): (t: Text)
    ensures |t| == |s|
  {
    if s == [] then []
    else if StartsWithPair(s) then s[..2] + ToWellFormed(s[2..])
    else [if IsSurrogate(s[0]) then 0xFFFD else s[0]] + ToWellFormed(s[1..])
  }

  lemma {:induction false} WellFormedStays(s: Text)
    requires WellFormed(s)
    ensures ToWellFormed(s) == s
  {
    if s != [] {
      WellFormedStays(if StartsWithPair(s) then s[2..] else s[1..]);
    }
  }

  lemma PairDigits(c: int)
    requires 0x10000 <= c < 0x110000
    ensures c / 262144 * 262144 + c / 4096 % 64 * 4096 + c / 64 % 64 * 64 + c % 64 == c && c / 262144 < 5
  {
    assert c / 64 / 64 == c / 4096 && c / 4096 / 64 == c / 262144;
  }

  lemma ReadPair(h: Unit, l: Unit, r: Bytes)
    requires IsHigh(h) && IsLow(l)
    ensures ReadCodePoint(PairBytes(h, l) + r) == Some((PairCodePoint(h, l), r))
    ensures CodePointUnits(PairCodePoint(h, l)) == [h, l]
  {
    PairDigits(PairCodePoint(h, l));
    assert (PairBytes(h, l) + r)[4..] == r;
  }

  lemma UnitDigits(u: Unit)
    ensures u / 4096 * 4096 + u / 64 % 64 * 64 + u % 64 == u && u / 4096 < 16 && u / 64 * 64 + u % 64 == u
  {
    assert u / 64 / 64 == u / 4096;
  }

  lemma ReadUnit(u: Unit, r: Bytes)
    ensures ReadCodePoint(UnitBytes(u) + r) == Some((if IsSurrogate(u) then 0xFFFD else u, r))
  {
    UnitDigits(u);
    assert (UnitBytes(u) + r)[|UnitBytes(u)|..] == r;
  }

  /** A standard reader gets back the text, with U+FFFD in the place of lone surrogates. */
  lemma {:induction false} Utf8Read(s: Text)
    ensures ReadUtf8(Utf8(s)) == Some(ToWellFormed(s))
    ensures WellFormed(s) ==> ReadUtf8(Utf8(s)) == Some(s)
  {
    if s != [] {
      if StartsWithPair(s) {
        Utf8Read(s[2..]);
        ReadPair(s[0], s[1], Utf8(s[2..]));
        assert s[..2] == [s[0], s[1]];
      } else {
        Utf8Read(s[1..]);
        ReadUnit(s[0], Utf8(s[1..]));
      }
    }
    if WellFormed(s) {
      WellFormedStays(s);
    }
  }

  lemma UnitBytesSameLength(u: Unit, v: Unit, r: Bytes, q: Bytes)
    requires !IsSurrogate(u) && !IsSurrogate(v)
    requires UnitBytes(u) + r == UnitBytes(v) + q
    ensures |UnitBytes(u)| == |UnitBytes(v)|
  {
    assert UnitBytes(u)[0] == (UnitBytes(u) + r)[0] == (UnitBytes(v) + q)[0] == UnitBytes(v)[0];
  }

  lemma UnitBytesInjective(u: Unit, v: Unit, r: Bytes, q: Bytes)
    requires !IsSurrogate(u) && !IsSurrogate(v)
    requires UnitBytes(u) + r == UnitBytes(v) + q
    ensures u == v && r == q
  {
    UnitBytesSameLength(u, v, r, q);
    var a, b := UnitBytes(u), UnitBytes(v);
    SplitEqual(a, b, r, q);
    assert a[0] == b[0] && (|a| > 1 ==> a[1] == b[1]);
    if |a| == 3 {
      assert a[2] == b[2];
      CodePointDigits(u, v);
    }
  }

  lemma CodePointDigits(c: int, d: int)
    requires 0 <= c && 0 <= d
    requires c / 262144 == d / 262144 && c / 4096 % 64 == d / 4096 % 64
    requires c / 64 % 64 == d / 64 % 64 && c % 64 == d % 64
    ensures c == d
  {
    assert c / 64 / 64 == c / 4096 && d / 64 / 64 == d / 4096;
    assert c / 4096 / 64 == c / 262144 && d / 4096 / 64 == d / 262144;
  }

  lemma PairBytesInjective(h: Unit, l: Unit, h': Unit, l': Unit, r: Bytes, q: Bytes)
    requires IsHigh(h) && IsLow(l) && IsHigh(h') && IsLow(l')
    requires PairBytes(h, l) + r == PairBytes(h', l') + q
    ensures h == h' && l == l' && r == q
  {
    var a, b := PairBytes(h, l), PairBytes(h', l');
    SplitEqual(a, b, r, q);
    assert a[0] == b[0] && a[1] == b[1] && a[2] == b[2] && a[3] == b[3];
    CodePointDigits(PairCodePoint(h, l), PairCodePoint(h', l'));
  }

  lemma Utf8Start(s: Text)
    requires s != []
    ensures Utf8(s) != [] && (Utf8(s)[0] >= 240 <==> StartsWithPair(s))
  {
  }

  lemma Utf8Pair(s: Text, t: Text)
    requires StartsWithPair(s) && StartsWithPair(t) && Utf8(s) == Utf8(t)
    ensures s[..2] == t[..2] && Utf8(s[2..]) == Utf8(t[2..])
  {
    PairBytesInjective(s[0], s[1], t[0], t[1], Utf8(s[2..]), Utf8(t[2..]));
  }

  /** On well-formed text TextEncoder loses nothing. */
  lemma {:induction false} Utf8Injective(s: Text, t: Text)
    requires WellFormed(s) && WellFormed(t)
    requires Utf8(s) == Utf8(t)
    ensures s == t
  {
    if s != [] && t != [] {
      Utf8Start(s);
      Utf8Start(t);
      if StartsWithPair(s) {
        Utf8Pair(s, t);
        Utf8Injective(s[2..], t[2..]);
        assert s == s[..2] + s[2..] && t == t[..2] + t[2..];
      } else {
        UnitBytesInjective(s[0], t[0], Utf8(s[1..]), Utf8(t[1..]));
        Utf8Injective(s[1..], t[1..]);
        assert s == [s[0]] + s[1..] && t == [t[0]] + t[1..];
      }
    }
  }

  // ----- Decimal integers -----

  predicate IsDigit(u: Unit) {
    48 <= u < 58
  }

  function Decimal(n: nat): (d: Text)
    ensures |d| >= 1 && IsDigit(d[0])
    ensures forall i :: 0 <= i < |d| ==> IsDigit(d[i])
  {
    if n < 10 then [48 + n] else Decimal(n / 10) + [48 + n % 10]
  }

  lemma {:induction false} DecimalInjective(n: nat, m: nat)
    requires Decimal(n) == Decimal(m)
    ensures n == m
  {
    var a, b := Decimal(n), Decimal(m);
    assert a[|a| - 1] == b[|b| - 1];
    if n >= 10 && m >= 10 {
      assert a[..|a| - 1] == Decimal(n / 10) && b[..|b| - 1] == Decimal(m / 10);
      DecimalInjective(n / 10, m / 10);
    }
  }

  /** The number that a digit string denotes. */
  function DecimalValue(d: Text): int {
    if d == [] then 0 else DecimalValue(d[..|d| - 1]) * 10 + (d[|d| - 1] as int - 48)
  }

  predicate IsDigits(d: Text) {
    forall i :: 0 <= i < |d| ==> IsDigit(d[i])
  }

  /** Decimal is the one digit string without superfluous zeros that denotes the number. */
  lemma {:induction false} DecimalRead(n: nat)
    ensures DecimalValue(Decimal(n)) == n && (n > 0 ==> Decimal(n)[0] != 48) && (n == 0 ==> |Decimal(n)| == 1)
  {
    var d := Decimal(n);
    if n >= 10 {
      DecimalRead(n / 10);
      assert d[..|d| - 1] == Decimal(n / 10) && d[0] == Decimal(n / 10)[0];
    } else {
      assert d[..0] == [];
    }
  }

  lemma {:induction false} DecimalUnique(d: Text)
    requires d != [] && IsDigits(d) && (d[0] == 48 ==> |d| == 1)
    ensures DecimalValue(d) >= 0 && d == Decimal(DecimalValue(d)) && (DecimalValue(d) == 0 ==> d == [48])
  {
    if |d| == 1 {
      assert d[..0] == [];
    } else {
      var init := d[..|d| - 1];
      DecimalUnique(init);
      assert d == init + [d[|d| - 1]];
      assert DecimalValue(d) / 10 == DecimalValue(init) && DecimalValue(d) % 10 == d[|d| - 1] - 48;
    }
  }

  // ----- Code-unit order -----

  /** The default comparison of Array.prototype.sort on strings. */
  predicate Lex(a: Text, b: Text) {
    b != [] && (a == [] || a[0] < b[0] || (a[0] == b[0] && Lex(a[1..], b[1..])))
  }

  /** At the first unit where the texts differ a has the smaller one, or a is a proper prefix. */
  ghost predicate ComesFirst(a: Text, b: Text) {
    exists k :: 0 <= k <= |a| && k < |b| && a[..k] == b[..k] && (k == |a| || a[k] < b[k])
  }

  lemma {:induction false} LexIsFirstDifference(a: Text, b: Text)
    ensures Lex(a, b) <==> ComesFirst(a, b)
  {
    if a != [] && b != [] && a[0] == b[0] {
      LexIsFirstDifference(a[1..], b[1..]);
      if k :| 0 <= k <= |a| && k < |b| && a[..k] == b[..k] && (k == |a| || a[k] < b[k]) {
        assert k > 0;
        assert a[1..][..k - 1] == a[..k][1..] && b[1..][..k - 1] == b[..k][1..];
      }
      if k :| 0 <= k <= |a| - 1 && k < |b| - 1 && a[1..][..k] == b[1..][..k]
              && (k == |a| - 1 || a[1..][k] < b[1..][k]) {
        assert a[..k + 1] == [a[0]] + a[1..][..k] && b[..k + 1] == [b[0]] + b[1..][..k];
      }
    } else if b != [] && (a == [] || a[0] < b[0]) {
      assert a[..0] == b[..0];
    } else if a != [] && b != [] {
      assert forall k :: 0 < k <= |a| && k < |b| ==> a[..k][0] != b[..k][0];
    }
  }

  /** Numerals of equal length are ordered as the numbers are. */
  lemma {:induction false} LexIsNumeric(a: Text, b: Text)
    requires |a| == |b| && IsDigits(a) && IsDigits(b)
    ensures Lex(a, b) <==> DecimalValue(a) < DecimalValue(b)
    ensures DecimalValue(a) == DecimalValue(b) <==> a == b
  {
    if a != [] {
      var n := |a| - 1;
      LexIsNumeric(a[..n], b[..n]);
      LexSnoc(a[..n], b[..n], a[n], b[n]);
      assert a == a[..n] + [a[n]] && b == b[..n] + [b[n]];
    }
  }

  lemma {:induction false} LexSnoc(a: Text, b: Text, x: Unit, y: Unit)
    requires |a| == |b|
    ensures Lex(a + [x], b + [y]) <==> Lex(a, b) || (a == b && x < y)
  {
    if a != [] {
      LexSnoc(a[1..], b[1..], x, y);
      assert (a + [x])[1..] == a[1..] + [x] && (b + [y])[1..] == b[1..] + [y];
      assert a == [a[0]] + a[1..] && b == [b[0]] + b[1..];
    } else {
      assert a + [x] == [x] && b + [y] == [y];
    }
  }

  /** A numeral with fewer digits denotes a smaller number, if the longer one has no leading zero. */
  lemma {:induction false} LengthIsNumeric(a: Text, b: Text)
    requires |a| < |b| && IsDigits(a) && IsDigits(b) && b[0] != 48
    ensures 0 <= DecimalValue(a) < DecimalValue(b)
  {
    if a != [] {
      LengthIsNumeric(a[..|a| - 1], b[..|b| - 1]);
    } else {
      DecimalUnique(b);
    }
  }

  lemma {:induction false} LexTotal(a: Text, b: Text)
    ensures a == b || Lex(a, b) || Lex(b, a)
    ensures Lex(a, b) ==> a != b && !Lex(b, a)
  {
    if a != [] && b != [] && a[0] == b[0] {
      LexTotal(a[1..], b[1..]);
      assert a == [a[0]] + a[1..] && b == [b[0]] + b[1..];
    }
  }

  lemma {:induction false} LexTransitive(a: Text, b: Text, c: Text)
    requires Lex(a, b) && Lex(b, c)
    ensures Lex(a, c)
  {
    if a != [] && a[0] == b[0] == c[0] {
      LexTransitive(a[1..], b[1..], c[1..]);
    }
  }
}
