/**
 * What a canonical text says: a strict JSON reader gets back the normal form that was printed, and the
 * normal form is described by the value that was given, with the keys of each object in their order.
 */
module JsonReader {
  import opened Bytes
  import opened JsText
  import opened CanonicalJson
  import Base64url

  // ----- Reading -----

  /** The length of the numeral at the start of a text. */
  function NumeralLength(t: Text): (n: nat)
    ensures n <= |t| && forall i :: 0 <= i < n ==> IsNumeralUnit(t[i])
  {
    if t == [] || !IsNumeralUnit(t[0]) then 0 else 1 + NumeralLength(t[1..])
  }

  /** Reads a JSON value without white space; gives the value and what follows it. */
  function ReadValue(t: Text): (r: Option<(Canon, Text)>)
    ensures r.Some? ==> |r.value.1| < |t|
    decreases |t|, 0
  {
    if t == [] then None
    else if t[0] == '"' as int then
      match ReadString(t[1..])
      case None => None
      case Some((s, rest)) => Some((CString(s), rest))
    else if t[0] == '[' as int then
      if |t| > 1 && t[1] == ']' as int then Some((CArray([]), t[2..]))
      else
        match ReadElems(t[1..])
        case None => None
        case Some((es, rest)) => Some((CArray(es), rest))
    else if t[0] == '{' as int then
      if |t| > 1 && t[1] == '}' as int then Some((CObject([]), t[2..]))
      else
        match ReadProps(t[1..])
        case None => None
        case Some((ps, rest)) => Some((CObject(ps), rest))
    else ReadWord(t)
  }

  function ReadWord(t: Text): (r: Option<(Canon, Text)>)
    ensures r.Some? ==> |r.value.1| < |t|
  {
    if Literal("null") <= t then Some((CNull, t[4..]))
    else if Literal("true") <= t then Some((CBool(true), t[4..]))
    else if Literal("false") <= t then Some((CBool(false), t[5..]))
    else if NumeralLength(t) > 0 then Some((CNumber(t[..NumeralLength(t)]), t[NumeralLength(t)..]))
    else None
  }

  /** Reads elements separated by commas, and the closing bracket. */
  function ReadElems(t: Text): (r: Option<(seq<Canon>, Text)>)
    ensures r.Some? ==> |r.value.1| < |t|
    decreases |t|, 1
  {
    match ReadValue(t)
    case None => None
    case Some((e, rest)) =>
      if rest != [] && rest[0] == ']' as int then Some(([e], rest[1..]))
      else if rest != [] && rest[0] == ',' as int then
        match ReadElems(rest[1..])
        case None => None
        case Some((es, rest')) => Some(([e] + es, rest'))
      else None
  }

  /** Reads properties separated by commas, and the closing brace. */
  function ReadProps(t: Text): (r: Option<(seq<CProp>, Text)>)
    ensures r.Some? ==> |r.value.1| < |t|
    decreases |t|, 1
  {
    match ReadProp(t)
    case None => None
    case Some((p, rest)) =>
      if rest != [] && rest[0] == '}' as int then Some(([p], rest[1..]))
      else if rest != [] && rest[0] == ',' as int then
        match ReadProps(rest[1..])
        case None => None
        case Some((ps, rest')) => Some(([p] + ps, rest'))
      else None
  }

  function ReadProp(t: Text): (r: Option<(CProp, Text)>)
    ensures r.Some? ==> |r.value.1| < |t|
    decreases |t|, 0
  {
    if t == [] || t[0] != '"' as int then None
    else
      match ReadString(t[1..])
      case None => None
      case Some((k, rest)) =>
        if rest == [] || rest[0] != ':' as int then None
        else
          match ReadValue(rest[1..])
          case None => None
          case Some((v, rest')) => Some((CProp(k, v), rest'))
  }

  /** A whole text. */
  function ReadJson(t: Text): Option<Canon> {
    match ReadValue(t)
    case Some((c, rest)) => if rest == [] then Some(c) else None
    case None => None
  }

  lemma {:induction false} NumeralEnds(n: Text, r: Text)
    requires (forall i :: 0 <= i < |n| ==> IsNumeralUnit(n[i])) && Delimited(r)
    ensures NumeralLength(n + r) == |n|
  {
    if n == [] {
      assert n + r == r;
    } else {
      NumeralEnds(n[1..], r);
      assert (n + r)[1..] == n[1..] + r;
    }
  }

  lemma ReadLiteral(c: Canon, r: Text)
    requires c.CNull? || c.CBool?
    ensures ReadValue(Print(c) + r) == Some((c, r))
  {
    var t := Print(c) + r;
    assert t[|Print(c)|..] == r;
    if c.CNull? {
      assert Literal("null") == Print(c);
      assert Literal("null") <= t;
    } else if c.b {
      assert Literal("true") == Print(c);
      assert Literal("true") <= t && t[0] == 116;
    } else {
      assert Literal("false") == Print(c);
      assert Literal("false") <= t && t[0] == 102;
    }
  }

  lemma ReadNumber(n: Numeral, r: Text)
    requires Delimited(r)
    ensures ReadValue(n + r) == Some((CNumber(n), r))
  {
    var t := n + r;
    assert t[0] == n[0];
    NumeralEnds(n, r);
    assert IsNumeralUnit(t[0]);
    assert t[..|n|] == n && t[|n|..] == r;
  }

  lemma ReadText(s: Text, r: Text)
    ensures ReadValue(Quote(s) + r) == Some((CString(s), r))
  {
    var t := Quote(s) + r;
    assert t[0] == 34;
    ReadQuoteTail(s, r);
    assert t[1..] == QuoteTail(s) + r;
  }

  lemma {:induction false} ReadPrinted(c: Canon, r: Text)
    requires Delimited(r)
    ensures ReadValue(Print(c) + r) == Some((c, r))
    decreases c, 1
  {
    match c
    case CNull => ReadLiteral(c, r);
    case CBool(_) => ReadLiteral(c, r);
    case CNumber(n) => ReadNumber(n, r);
    case CString(s) => ReadText(s, r);
    case CArray(es) => ReadArray(es, r);
    case CObject(ps) => ReadObject(ps, r);
  }

  // One step of the reader on a text of which the parts are already known.

  lemma ArrayStep(t: Text, es: seq<Canon>, r: Text)
    requires |t| > 1 && t[0] == 91 && t[1] != 93 && ReadElems(t[1..]) == Some((es, r))
    ensures ReadValue(t) == Some((CArray(es), r))
  {
  }

  lemma EmptyArrayStep(t: Text)
    requires |t| > 1 && t[0] == 91 && t[1] == 93
    ensures ReadValue(t) == Some((CArray([]), t[2..]))
  {
  }

  lemma LastElemStep(t: Text, e: Canon, rest: Text)
    requires ReadValue(t) == Some((e, rest)) && rest != [] && rest[0] == 93
    ensures ReadElems(t) == Some(([e], rest[1..]))
  {
  }

  lemma ElemStep(t: Text, e: Canon, rest: Text, es: seq<Canon>, r: Text)
    requires ReadValue(t) == Some((e, rest)) && rest != [] && rest[0] == 44 && ReadElems(rest[1..]) == Some((es, r))
    ensures ReadElems(t) == Some(([e] + es, r))
  {
  }

  lemma ObjectStep(t: Text, ps: seq<CProp>, r: Text)
    requires |t| > 1 && t[0] == 123 && t[1] != 125 && ReadProps(t[1..]) == Some((ps, r))
    ensures ReadValue(t) == Some((CObject(ps), r))
  {
  }

  lemma EmptyObjectStep(t: Text)
    requires |t| > 1 && t[0] == 123 && t[1] == 125
    ensures ReadValue(t) == Some((CObject([]), t[2..]))
  {
  }

  lemma LastPropStep(t: Text, p: CProp, rest: Text)
    requires ReadProp(t) == Some((p, rest)) && rest != [] && rest[0] == 125
    ensures ReadProps(t) == Some(([p], rest[1..]))
  {
  }

  lemma PropsStep(t: Text, p: CProp, rest: Text, ps: seq<CProp>, r: Text)
    requires ReadProp(t) == Some((p, rest)) && rest != [] && rest[0] == 44 && ReadProps(rest[1..]) == Some((ps, r))
    ensures ReadProps(t) == Some(([p] + ps, r))
  {
  }

  lemma PropStep(t: Text, k: Text, rest: Text, v: Canon, r: Text)
    requires t != [] && t[0] == 34 && ReadString(t[1..]) == Some((k, rest))
    requires rest != [] && rest[0] == 58 && ReadValue(rest[1..]) == Some((v, r))
    ensures ReadProp(t) == Some((CProp(k, v), r))
  {
  }

  lemma {:induction false} ReadArray(es: seq<Canon>, r: Text)
    ensures ReadValue(Print(CArray(es)) + r) == Some((CArray(es), r))
    decreases es, 1
  {
    var t := Print(CArray(es)) + r;
    if es == [] {
      assert t == [91, 93] + r;
      EmptyArrayStep(t);
    } else {
      ReadPrintedElems(es, r);
      ElemsFirst(es, r);
      assert t == [91] + (PrintElems(es)[1..] + r);
      ArrayStep(t, es, r);
    }
  }

  lemma ElemsRegroup(v: Text, more: Text, r: Text)
    ensures ([COMMA] + (v + more))[1..] + r == v + (more + r)
  {
  }

  lemma TailOf(more: Text, r: Text)
    requires more != []
    ensures (more + r)[1..] == more[1..] + r && (more + r)[0] == more[0]
  {
  }

  lemma {:induction false} ReadPrintedElems(es: seq<Canon>, r: Text)
    requires es != []
    ensures ReadElems(PrintElems(es)[1..] + r) == Some((es, r))
    decreases es, 0
  {
    var e, more := es[0], PrintElems(es[1..]);
    ReadPrinted(e, more + r);
    ElemsRegroup(Print(e), more, r);
    TailOf(more, r);
    if |es| > 1 {
      ReadPrintedElems(es[1..], r);
      ElemStep(Print(e) + (more + r), e, more + r, es[1..], r);
      HeadAndTail(es);
    } else {
      LastElemStep(Print(e) + (more + r), e, more + r);
      HeadAndTail(es);
      assert more[1..] + r == r;
    }
  }

  lemma HeadAndTail<T>(s: seq<T>)
    requires s != []
    ensures s == [s[0]] + s[1..] && (|s| == 1 ==> s == [s[0]])
  {
  }

  lemma {:induction false} ReadObject(ps: seq<CProp>, r: Text)
    ensures ReadValue(Print(CObject(ps)) + r) == Some((CObject(ps), r))
    decreases ps, 1
  {
    var t := Print(CObject(ps)) + r;
    if ps == [] {
      assert t == [123, 125] + r;
      EmptyObjectStep(t);
    } else {
      ReadPrintedProps(ps, r);
      PropsFirst(ps, r);
      assert t == [123] + (PrintProps(ps)[1..] + r);
      ObjectStep(t, ps, r);
    }
  }

  lemma ReadPrintedProp(p: CProp, rest: Text)
    requires ReadValue(Print(p.value) + rest) == Some((p.value, rest))
    ensures ReadProp(Quote(p.key) + ([COLON] + (Print(p.value) + rest))) == Some((p, rest))
  {
    var more := [COLON] + (Print(p.value) + rest);
    ReadQuoteTail(p.key, more);
    Assoc([QUOTE], QuoteTail(p.key), more);
    assert ([QUOTE] + (QuoteTail(p.key) + more))[1..] == QuoteTail(p.key) + more;
    assert more[1..] == Print(p.value) + rest;
    PropStep([QUOTE] + (QuoteTail(p.key) + more), p.key, more, p.value, rest);
  }

  lemma PropsRegroup(k: Text, v: Text, more: Text, r: Text)
    ensures ([COMMA] + (k + ([COLON] + (v + more))))[1..] + r == k + ([COLON] + (v + (more + r)))
  {
  }

  lemma {:induction false} ReadPrintedProps(ps: seq<CProp>, r: Text)
    requires ps != []
    ensures ReadProps(PrintProps(ps)[1..] + r) == Some((ps, r))
    decreases ps, 0
  {
    var p, more := ps[0], PrintProps(ps[1..]);
    ReadPrinted(p.value, more + r);
    ReadPrintedProp(p, more + r);
    PropsRegroup(Quote(p.key), Print(p.value), more, r);
    TailOf(more, r);
    var t := Quote(p.key) + ([COLON] + (Print(p.value) + (more + r)));
    if |ps| > 1 {
      ReadPrintedProps(ps[1..], r);
      PropsStep(t, p, more + r, ps[1..], r);
      HeadAndTail(ps);
    } else {
      LastPropStep(t, p, more + r);
      HeadAndTail(ps);
      assert more[1..] + r == r;
    }
  }

  /** Printing is undone by the reader. */
  lemma PrintRead(c: Canon)
    ensures ReadJson(Print(c)) == Some(c)
  {
    ReadPrinted(c, []);
    assert Print(c) + [] == Print(c);
  }

  // ----- The order of keys -----

  /** The key is an array index: the decimal form of a number below 2^32 - 1. */
  ghost predicate IsIndex(k: Text) {
    exists n: nat :: n < 4294967295 && k == Decimal(n)
  }

  /** Array indices come first and in numeric order; other keys follow in the order of their code units. */
  ghost predicate KeyBefore(a: Text, b: Text) {
    || (exists n: nat, m: nat :: n < m < 4294967295 && a == Decimal(n) && b == Decimal(m))
    || (IsIndex(a) && !IsIndex(b))
    || (!IsIndex(a) && !IsIndex(b) && ComesFirst(a, b))
  }

  lemma DecimalStep(n: nat, digits: Text, d: nat)
    requires d < 10 && Decimal(n) == digits && n > 0
    ensures Decimal(10 * n + d) == digits + [48 + d]
  {
  }

  lemma LimitDigits()
    ensures Decimal(4294967295) == [52, 50, 57, 52, 57, 54, 55, 50, 57, 53]
  {
    DecimalStep(4, [52], 2);
    DecimalStep(42, [52, 50], 9);
    DecimalStep(429, [52, 50, 57], 4);
    DecimalStep(4294, [52, 50, 57, 52], 9);
    DecimalStep(42949, [52, 50, 57, 52, 57], 6);
    LimitTail();
  }

  lemma LimitTail()
    requires Decimal(429496) == [52, 50, 57, 52, 57, 54]
    ensures Decimal(4294967295) == [52, 50, 57, 52, 57, 54, 55, 50, 57, 53]
  {
    DecimalStep(429496, [52, 50, 57, 52, 57, 54], 7);
    DecimalStep(4294967, [52, 50, 57, 52, 57, 54, 55], 2);
    DecimalStep(42949672, [52, 50, 57, 52, 57, 54, 55, 50], 9);
    DecimalStep(429496729, [52, 50, 57, 52, 57, 54, 55, 50, 57], 5);
  }

  /** Numerals without superfluous zeros are ordered by length and then by digits. */
  lemma NumericOrder(a: Text, b: Text)
    requires a != [] && IsDigits(a) && (a[0] == 48 ==> |a| == 1)
    requires b != [] && IsDigits(b) && (b[0] == 48 ==> |b| == 1)
    ensures DecimalValue(a) < DecimalValue(b) <==> |a| < |b| || (|a| == |b| && Lex(a, b))
  {
    if |a| < |b| {
      LengthIsNumeric(a, b);
    } else if |b| < |a| {
      LengthIsNumeric(b, a);
    } else {
      LexIsNumeric(a, b);
    }
  }

  lemma DecimalShape(n: nat)
    ensures var d := Decimal(n); d != [] && IsDigits(d) && (d[0] == 48 ==> |d| == 1) && DecimalValue(d) == n
  {
    DecimalRead(n);
  }

  lemma ArrayIndexMeans(k: Text)
    ensures IsArrayIndex(k) <==> IsIndex(k)
  {
    LimitDigits();
    if IsArrayIndex(k) {
      DecimalUnique(k);
      IndexBelowLimit(k);
      assert k == Decimal(DecimalValue(k));
    }
    if n: nat :| n < 4294967295 && k == Decimal(n) {
      DecimalShape(n);
      IndexBelowLimit(k);
    }
  }

  /** Below the limit means: fewer digits, or as many and smaller ones. */
  lemma IndexBelowLimit(k: Text)
    requires k != [] && IsDigits(k) && (k[0] == 48 ==> |k| == 1)
    ensures DecimalValue(k) < 4294967295 <==> |k| < 10 || (|k| == 10 && Lex(k, Decimal(4294967295)))
  {
    LimitDigits();
    DecimalShape(4294967295);
    NumericOrder(k, Decimal(4294967295));
  }

  lemma IndexOrder(a: Text, b: Text)
    requires IsArrayIndex(a) && IsArrayIndex(b)
    ensures Precedes(a, b) <==> DecimalValue(a) < DecimalValue(b)
  {
    NumericOrder(a, b);
  }

  /** The order of the rebuilt object, described without the comparison that sorts. */
  lemma PrecedesMeans(a: Text, b: Text)
    ensures Precedes(a, b) <==> KeyBefore(a, b)
  {
    ArrayIndexMeans(a);
    ArrayIndexMeans(b);
    LexIsFirstDifference(a, b);
    if IsArrayIndex(a) && IsArrayIndex(b) {
      DecimalUnique(a);
      DecimalUnique(b);
      IndexOrder(a, b);
      IndexBelowLimit(a);
      IndexBelowLimit(b);
      if n: nat, m: nat :| n < m < 4294967295 && a == Decimal(n) && b == Decimal(m) {
        DecimalRead(n);
        DecimalRead(m);
      }
      if DecimalValue(a) < DecimalValue(b) {
        assert a == Decimal(DecimalValue(a)) && b == Decimal(DecimalValue(b));
      }
    }
  }

  // ----- What is printed -----

  /** No later assignment is to the same key. */
  ghost predicate LastAssigned(ps: seq<Prop>, i: nat) {
    i < |ps| && forall j :: i < j < |ps| ==> ps[j].key != ps[i].key
  }

  /** The JSON value c is what JavaScript is expected to write for the value v. */
  ghost predicate Represents(c: Canon, v: JsValue)
    decreases v, 0
  {
    match v
    case Undefined => false
    case Null => c == CNull
    case NonFinite(_) => c == CNull
    case Bool(b) => c == CBool(b)
    case Number(n) => c == CNumber(n)
    case Str(s) => c == CString(s)
    case ByteArray(b) => c == CString(Base64url.Encode(b))
    case Arr(es) =>
      && c.CArray? && |c.elems| == |es|
      && forall i :: 0 <= i < |es| ==> if es[i].Undefined? then c.elems[i] == CNull else Represents(c.elems[i], es[i])
    case Obj(ps) =>
      && c.CObject?
      && (forall i, j :: 0 <= i < j < |c.props| ==> KeyBefore(c.props[i].key, c.props[j].key))
      && (forall j :: 0 <= j < |c.props| ==> AssignedSo(c.props[j], ps))
      && (forall i: nat :: LastAssigned(ps, i) && !ps[i].value.Undefined? && ps[i].key != Literal("__proto__") ==>
            exists j :: 0 <= j < |c.props| && c.props[j].key == ps[i].key)
  }

  /** The printed property shows the value that its key was last assigned. */
  ghost predicate AssignedSo(p: CProp, ps: seq<Prop>)
    decreases ps, 1
  {
    p.key != Literal("__proto__")
    && exists i: nat :: LastAssigned(ps, i) && ps[i].key == p.key && Represents(p.value, ps[i].value)
  }

  lemma ProtoText()
    ensures PROTO == Literal("__proto__")
  {
  }

  lemma {:induction false} PositionMeans(ps: seq<Prop>, k: Text)
    ensures Position(ps, k) >= 0 ==> LastAssigned(ps, Position(ps, k))
    ensures forall i: nat :: LastAssigned(ps, i) && ps[i].key == k ==> Position(ps, k) == i
  {
    if ps != [] {
      var init := ps[..|ps| - 1];
      PositionMeans(init, k);
      forall i: nat | LastAssigned(ps, i) && ps[i].key == k ensures Position(ps, k) == i {
        if i < |init| {
          assert ps[|ps| - 1].key != k;
          assert init[i] == ps[i] && LastAssigned(init, i);
        }
      }
    }
  }

  lemma {:induction false} GetSome(ps: seq<CProp>, k: Text)
    ensures Get(ps, k).Some? <==> exists j :: 0 <= j < |ps| && ps[j].key == k
  {
    if Get(ps, k).Some? {
      var j := GetPresent(ps, k);
    } else if j :| 0 <= j < |ps| && ps[j].key == k {
      GetListed(ps, j);
    }
  }

  /** In a list of distinct keys, or for the first of equal ones, Get finds the property; here it finds some value. */
  lemma {:induction false} GetListed(ps: seq<CProp>, j: nat)
    requires j < |ps|
    ensures Get(ps, ps[j].key).Some?
  {
    if ps[0].key != ps[j].key {
      GetListed(ps[1..], j - 1);
    }
  }

  lemma {:induction false} GetSorted(ps: seq<CProp>, j: nat)
    requires Sorted(ps) && j < |ps|
    ensures Get(ps, ps[j].key) == Some(ps[j].value)
  {
    if j > 0 {
      PrecedesTotal(ps[0].key, ps[j].key);
      GetSorted(ps[1..], j - 1);
    }
  }

  lemma {:induction false} NormaliseRepresents(v: JsValue)
    requires !v.Undefined?
    ensures Normalise(v).Some? && Represents(Normalise(v).value, v)
    decreases v, 0
  {
    match v
    case Arr(es) =>
      forall i | 0 <= i < |es|
        ensures |NormaliseElems(es)| == |es|
        ensures if es[i].Undefined? then NormaliseElems(es)[i] == CNull else Represents(NormaliseElems(es)[i], es[i])
      {
        NormaliseElemsAt(es, i);
        if !es[i].Undefined? {
          NormaliseRepresents(es[i]);
        }
      }
      NormaliseElemsAt(es, 0);
    case Obj(ps) =>
      PropsRepresent(ps);
    case _ =>
  }

  lemma {:induction false} PropsRepresent(ps: seq<Prop>)
    ensures Represents(CObject(NormaliseProps(ps)), Obj(ps))
    decreases ps, 0
  {
    var cs := NormaliseProps(ps);
    ProtoText();
    NormalisePropsSorted(ps);
    forall i, j | 0 <= i < j < |cs| ensures KeyBefore(cs[i].key, cs[j].key) {
      PrecedesMeans(cs[i].key, cs[j].key);
    }
    forall j | 0 <= j < |cs| ensures AssignedSo(cs[j], ps) {
      PropRepresents(ps, j);
    }
    forall i: nat | LastAssigned(ps, i) && !ps[i].value.Undefined? && ps[i].key != PROTO
      ensures exists j :: 0 <= j < |cs| && cs[j].key == ps[i].key
    {
      PositionMeans(ps, ps[i].key);
      NormalisePropsGet(ps, ps[i].key);
      NormaliseRepresents(ps[i].value);
      GetSome(cs, ps[i].key);
    }
  }

  lemma {:induction false} PropRepresents(ps: seq<Prop>, j: nat)
    requires j < |NormaliseProps(ps)| && Sorted(NormaliseProps(ps))
    ensures AssignedSo(NormaliseProps(ps)[j], ps)
    decreases ps, 0, 0
  {
    var p := NormaliseProps(ps)[j];
    GetSorted(NormaliseProps(ps), j);
    NormalisePropsGet(ps, p.key);
    PositionMeans(ps, p.key);
    ProtoText();
    var i := Position(ps, p.key);
    NormaliseRepresents(ps[i].value);
  }

  /** Reading the canonical text gives the JSON value expected for v. */
  lemma CanonicalTextMeans(v: JsValue)
    ensures CanonicalJSON(v).None? <==> v.Undefined?
    ensures CanonicalJSON(v).Some? ==>
              ReadJson(CanonicalJSON(v).value).Some? && Represents(ReadJson(CanonicalJSON(v).value).value, v)
  {
    if !v.Undefined? {
      NormaliseRepresents(v);
      PrintRead(Normalise(v).value);
    }
  }
}
