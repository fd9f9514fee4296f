/**
 * canonicalJSON: JSON.stringify with a replacer that sorts object keys and writes byte arrays as
 * base64url strings. The two phases, normalisation and printing, are separate functions.
 */
module CanonicalJson {
  import opened Bytes
  import opened JsText
  import Base64url

  /** A finite number is identified with its ECMAScript decimal form. */
  type Numeral = t: Text | t != [] && forall i :: 0 <= i < |t| ==> IsNumeralUnit(t[i]) witness [48]

  /** Digits, the signs, the decimal point and the exponent mark 'e'. */
  predicate IsNumeralUnit(u: Unit) {
    IsDigit(u) || u == 43 || u == 45 || u == 46 || u == 101
  }

  /** Values handed to canonicalJSON. An object is the list of assignments that built it. */
  datatype JsValue =
    | Undefined
    | Null
    | Bool(b: bool)
    | Number(numeral: Numeral)
    | NonFinite(isNaN: bool)
    | Str(s: Text)
    | ByteArray(bytes: Bytes)
    | Arr(elems: seq<JsValue>)
    | Obj(props: seq<Prop>)

  datatype Prop = Prop(key: Text, value: JsValue)

  /** What JSON.stringify finally writes. */
  datatype Canon =
    | CNull
    | CBool(b: bool)
    | CNumber(numeral: Numeral)
    | CString(s: Text)
    | CArray(elems: seq<Canon>)
    | CObject(props: seq<CProp>)

  datatype CProp = CProp(key: Text, value: Canon)

  /** The text "__proto__": assigning this key sets a prototype instead of a property. */
  const PROTO: Text := [95, 95, 112, 114, 111, 116, 111, 95, 95]

  // ----- Key order -----

  /** Array indices, which property enumeration lists first and in numeric order. */
  predicate IsArrayIndex(k: Text) {
    && 1 <= |k| <= 10
    && (forall i :: 0 <= i < |k| ==> IsDigit(k[i]))
    && (k[0] == 48 ==> |k| == 1)
    && (|k| == 10 ==> Lex(k, Decimal(4294967295)))
  }

  /** The order in which the rebuilt object enumerates its keys. */
  predicate Precedes(a: Text, b: Text) {
    if IsArrayIndex(a) && IsArrayIndex(b) then |a| < |b| || (|a| == |b| && Lex(a, b))
    else if IsArrayIndex(a) || IsArrayIndex(b) then IsArrayIndex(a)
    else Lex(a, b)
  }

  lemma PrecedesTotal(a: Text, b: Text)
    ensures a == b || Precedes(a, b) || Precedes(b, a)
    ensures Precedes(a, b) ==> a != b && !Precedes(b, a)
  {
    LexTotal(a, b);
    LexTotal(b, a);
  }

  lemma PrecedesTransitive(a: Text, b: Text, c: Text)
    requires Precedes(a, b) && Precedes(b, c)
    ensures Precedes(a, c)
  {
    if Lex(a, b) && Lex(b, c) {
      LexTransitive(a, b, c);
    }
  }

  // ----- Sorted property lists -----

  ghost predicate Sorted(ps: seq<CProp>) {
    forall i, j :: 0 <= i < j < |ps| ==> Precedes(ps[i].key, ps[j].key)
  }

  /** The effect of sorted[k] = value, where an undefined value is never written out. */
  function Assign(ps: seq<CProp>, k: Text, c: Option<Canon>): seq<CProp> {
    var here := if c.Some? then [CProp(k, c.value)] else [];
    if ps == [] then here
    else if ps[0].key == k then here + ps[1..]
    else if Precedes(k, ps[0].key) then here + ps
    else [ps[0]] + Assign(ps[1..], k, c)
  }

  function Get(ps: seq<CProp>, k: Text): Option<Canon> {
    if ps == [] then None
    else if ps[0].key == k then Some(ps[0].value)
    else Get(ps[1..], k)
  }

  lemma {:induction false} GetAbsent(ps: seq<CProp>, k: Text)
    requires forall i :: 0 <= i < |ps| ==> ps[i].key != k
    ensures Get(ps, k) == None
  {
    if ps != [] {
      GetAbsent(ps[1..], k);
    }
  }

  lemma {:induction false} GetPresent(ps: seq<CProp>, k: Text) returns (i: nat)
    requires Get(ps, k).Some?
    ensures i < |ps| && ps[i].key == k
  {
    if ps[0].key == k {
      i := 0;
    } else {
      i := GetPresent(ps[1..], k);
      i := i + 1;
    }
  }

  /** A key that precedes the head of a sorted list is not in the list. */
  lemma GetBefore(ps: seq<CProp>, k: Text)
    requires Sorted(ps) && ps != [] && Precedes(k, ps[0].key)
    ensures Get(ps, k) == None
  {
    forall i | 0 <= i < |ps| ensures ps[i].key != k {
      if i > 0 {
        PrecedesTransitive(k, ps[0].key, ps[i].key);
      }
      PrecedesTotal(k, ps[i].key);
    }
    GetAbsent(ps, k);
  }

  lemma GetOwnTail(ps: seq<CProp>)
    requires Sorted(ps) && ps != []
    ensures Get(ps[1..], ps[0].key) == None
  {
    forall i | 0 <= i < |ps| - 1 ensures ps[1..][i].key != ps[0].key {
      PrecedesTotal(ps[0].key, ps[i + 1].key);
    }
    GetAbsent(ps[1..], ps[0].key);
  }

  lemma SortedCons(p: CProp, ps: seq<CProp>)
    requires Sorted(ps) && (ps == [] || Precedes(p.key, ps[0].key))
    ensures Sorted([p] + ps)
  {
    var all := [p] + ps;
    forall i, j | 0 <= i < j < |all| ensures Precedes(all[i].key, all[j].key) {
      if i == 0 && j > 1 {
        PrecedesTransitive(p.key, ps[0].key, ps[j - 1].key);
      }
    }
  }

  lemma AssignHead(ps: seq<CProp>, k: Text, c: Option<Canon>)
    requires Sorted(ps)
    ensures Assign(ps, k, c) == [] || Assign(ps, k, c)[0].key == k
            || (ps != [] && (Assign(ps, k, c)[0] == ps[0] || (|ps| > 1 && Assign(ps, k, c)[0] == ps[1])))
  {
  }

  lemma {:induction false} AssignSorted(ps: seq<CProp>, k: Text, c: Option<Canon>)
    requires Sorted(ps)
    ensures Sorted(Assign(ps, k, c))
  {
    if ps == [] {
    } else if ps[0].key == k {
      if c.Some? && |ps| > 1 {
        assert ps[1..][0] == ps[1];
      }
      if c.Some? {
        SortedCons(CProp(k, c.value), ps[1..]);
      }
    } else if Precedes(k, ps[0].key) {
      if c.Some? {
        SortedCons(CProp(k, c.value), ps);
      } else {
        assert Assign(ps, k, c) == ps;
      }
    } else {
      PrecedesTotal(k, ps[0].key);
      AssignSorted(ps[1..], k, c);
      AssignHead(ps[1..], k, c);
      SortedCons(ps[0], Assign(ps[1..], k, c));
    }
  }

  lemma {:induction false} GetAssign(ps: seq<CProp>, k: Text, c: Option<Canon>, j: Text)
    requires Sorted(ps)
    ensures Get(Assign(ps, k, c), j) == if j == k then c else Get(ps, j)
  {
    if ps == [] {
    } else if ps[0].key == k {
      GetOwnTail(ps);
      if c.Some? {
        assert Assign(ps, k, c)[1..] == ps[1..];
      } else {
        assert Assign(ps, k, c) == ps[1..];
      }
    } else if Precedes(k, ps[0].key) {
      GetBefore(ps, k);
      if c.Some? {
        assert Assign(ps, k, c)[1..] == ps;
      } else {
        assert Assign(ps, k, c) == ps;
      }
    } else {
      GetAssign(ps[1..], k, c, j);
      assert Assign(ps, k, c)[1..] == Assign(ps[1..], k, c);
    }
  }

  /** A sorted property list is determined by what it maps each key to. */
  lemma {:induction false} SortedExtensional(ps: seq<CProp>, qs: seq<CProp>)
    requires Sorted(ps) && Sorted(qs)
    requires forall k :: Get(ps, k) == Get(qs, k)
    ensures ps == qs
  {
    assert ps != [] ==> Get(ps, ps[0].key).Some?;
    assert qs != [] ==> Get(qs, qs[0].key).Some?;
    if ps != [] && qs != [] {
      var k, l := ps[0].key, qs[0].key;
      assert Get(ps, k) == Get(qs, k) && Get(ps, l) == Get(qs, l);
      if Precedes(k, l) {
        GetBefore(qs, k);
      } else if Precedes(l, k) {
        GetBefore(ps, l);
      }
      PrecedesTotal(k, l);
      GetOwnTail(ps);
      GetOwnTail(qs);
      forall j ensures Get(ps[1..], j) == Get(qs[1..], j) {
        assert Get(ps, j) == Get(qs, j);
      }
      SortedExtensional(ps[1..], qs[1..]);
      assert ps == [ps[0]] + ps[1..] && qs == [qs[0]] + qs[1..];
    }
  }

  // ----- Normalisation -----

  /** The value after the replacer has run everywhere; None stands for undefined. */
  function Normalise(v: JsValue): Option<Canon>
    decreases v, 1
  {
    match v
    case Undefined => None
    case Null => Some(CNull)
    case Bool(b) => Some(CBool(b))
    case Number(n) => Some(CNumber(n))
    case NonFinite(_) => Some(CNull)
    case Str(s) => Some(CString(s))
    case ByteArray(b) => Some(CString(Base64url.Encode(b)))
    case Arr(es) => Some(CArray(NormaliseElems(es)))
    case Obj(ps) => Some(CObject(NormaliseProps(ps)))
  }

  /** An undefined array element is written as null. */
  function NormaliseElems(es: seq<JsValue>): (cs: seq<Canon>)
    decreases es, 0
  {
    if es == [] then []
    else
      var c := Normalise(es[0]);
      [if c.Some? then c.value else CNull] + NormaliseElems(es[1..])
  }

  function NormaliseProps(ps: seq<Prop>): seq<CProp>
    decreases ps, 0
  {
    if ps == [] then []
    else
      var last := ps[|ps| - 1];
      var before := NormaliseProps(ps[..|ps| - 1]);
      if last.key == PROTO then before else Assign(before, last.key, Normalise(last.value))
  }

  // ----- Equality of values up to key order -----

  /** The position of the assignment that k keeps, or -1. */
  function Position(ps: seq<Prop>, k: Text): (i: int)
    ensures -1 <= i < |ps|
    ensures i >= 0 ==> ps[i].key == k
  {
    if ps == [] then -1
    else if ps[|ps| - 1].key == k then |ps| - 1
    else Position(ps[..|ps| - 1], k)
  }

  /** The object has an own property k that JSON can show. */
  predicate Shows(ps: seq<Prop>, k: Text) {
    k != PROTO && Position(ps, k) >= 0 && !ps[Position(ps, k)].value.Undefined?
  }

  predicate IsNullLike(v: JsValue) {
    v.Null? || v.NonFinite?
  }

  predicate IsStringLike(v: JsValue) {
    v.Str? || v.ByteArray?
  }

  function StringForm(v: JsValue): Text
    requires IsStringLike(v)
  {
    if v.Str? then v.s else Base64url.Encode(v.bytes)
  }

  /**
   * The values agree except for the order in which object properties were assigned, for a byte
   * array and its base64url text, for null and non-finite numbers, and for undefined inside arrays.
   */
  ghost predicate Same(v: JsValue, w: JsValue)
    decreases v, 0
  {
    match v
    case Undefined => w.Undefined?
    case Null => IsNullLike(w)
    case NonFinite(_) => IsNullLike(w)
    case Bool(b) => w.Bool? && b == w.b
    case Number(n) => w.Number? && n == w.numeral
    case Str(s) => IsStringLike(w) && s == StringForm(w)
    case ByteArray(b) => IsStringLike(w) && StringForm(v) == StringForm(w)
    case Arr(es) =>
      && w.Arr? && |es| == |w.elems|
      && forall i :: 0 <= i < |es| ==> SameElem(es[i], w.elems[i])
    case Obj(ps) =>
      w.Obj? && forall k :: SameField(ps, w.props, k)
  }

  /** Both objects show the same value under k, or neither shows one. */
  ghost predicate SameField(ps: seq<Prop>, qs: seq<Prop>, k: Text)
    decreases ps, 1
  {
    && Shows(ps, k) == Shows(qs, k)
    && (Shows(ps, k) && Shows(qs, k) ==> Same(ps[Position(ps, k)].value, qs[Position(qs, k)].value))
  }

  ghost predicate SameElem(e: JsValue, f: JsValue)
    decreases e, 1
  {
    Same(e, f) || ((e.Undefined? || IsNullLike(e)) && (f.Undefined? || IsNullLike(f)))
  }

  lemma {:induction false} NormaliseElemsAt(es: seq<JsValue>, i: nat)
    ensures |NormaliseElems(es)| == |es|
    ensures i < |es| ==>
              NormaliseElems(es)[i] == if es[i].Undefined? then CNull else Normalise(es[i]).value
  {
    if es != [] {
      NormaliseElemsAt(es[1..], if i > 0 then i - 1 else 0);
    }
  }

  lemma {:induction false} NormalisePropsSorted(ps: seq<Prop>)
    ensures Sorted(NormaliseProps(ps))
  {
    if ps != [] {
      NormalisePropsSorted(ps[..|ps| - 1]);
      AssignSorted(NormaliseProps(ps[..|ps| - 1]), ps[|ps| - 1].key, Normalise(ps[|ps| - 1].value));
    }
  }

  /** The rebuilt object maps each key other than __proto__ to the value last assigned to it. */
  lemma {:induction false} NormalisePropsGet(ps: seq<Prop>, k: Text)
    ensures Get(NormaliseProps(ps), k)
         == if Shows(ps, k) then Normalise(ps[Position(ps, k)].value) else None
  {
    if ps != [] {
      var init := ps[..|ps| - 1];
      NormalisePropsGet(init, k);
      NormalisePropsSorted(init);
      GetAssign(NormaliseProps(init), ps[|ps| - 1].key, Normalise(ps[|ps| - 1].value), k);
    }
  }

  /** Two values have the same normal form exactly when they agree up to key order. */
  lemma {:induction false} NormaliseExact(v: JsValue, w: JsValue)
    ensures Normalise(v) == Normalise(w) <==> Same(v, w)
    decreases v
  {
    if v.Arr? && w.Arr? {
      NormaliseExactArr(v, w);
    } else if v.Obj? && w.Obj? {
      NormaliseExactObj(v, w);
    }
  }

  lemma {:induction false} NormaliseExactArr(v: JsValue, w: JsValue)
    requires v.Arr? && w.Arr?
    ensures Normalise(v) == Normalise(w) <==> Same(v, w)
    decreases v, 0
  {
    var es, fs := v.elems, w.elems;
    NormaliseElemsAt(es, 0);
    NormaliseElemsAt(fs, 0);
    if |es| == |fs| {
      forall i | 0 <= i < |es|
        ensures NormaliseElems(es)[i] == NormaliseElems(fs)[i] <==> SameElem(es[i], fs[i])
      {
        NormaliseElemsAt(es, i);
        NormaliseElemsAt(fs, i);
        NormaliseExact(es[i], fs[i]);
      }
      assert NormaliseElems(es) == NormaliseElems(fs)
             <==> forall i :: 0 <= i < |es| ==> NormaliseElems(es)[i] == NormaliseElems(fs)[i];
    }
  }

  lemma {:induction false} NormaliseExactObj(v: JsValue, w: JsValue)
    requires v.Obj? && w.Obj?
    ensures Normalise(v) == Normalise(w) <==> Same(v, w)
    decreases v, 0
  {
    var ps, qs := v.props, w.props;
    NormalisePropsSorted(ps);
    NormalisePropsSorted(qs);
    forall k ensures Get(NormaliseProps(ps), k) == Get(NormaliseProps(qs), k) <==> SameField(ps, qs, k) {
      NormaliseExactField(ps, qs, k);
    }
    if forall k :: Get(NormaliseProps(ps), k) == Get(NormaliseProps(qs), k) {
      SortedExtensional(NormaliseProps(ps), NormaliseProps(qs));
    }
  }

  lemma {:induction false} NormaliseExactField(ps: seq<Prop>, qs: seq<Prop>, k: Text)
    ensures Get(NormaliseProps(ps), k) == Get(NormaliseProps(qs), k) <==> SameField(ps, qs, k)
    decreases ps, 1
  {
    NormalisePropsGet(ps, k);
    NormalisePropsGet(qs, k);
    if Shows(ps, k) && Shows(qs, k) {
      NormaliseExact(ps[Position(ps, k)].value, qs[Position(qs, k)].value);
    }
  }

  // ----- Printing -----

  function Print(c: Canon): (t: Text)
    decreases c, 1
  {
    match c
    case CNull => [110, 117, 108, 108]
    case CBool(b) => if b then [116, 114, 117, 101] else [102, 97, 108, 115, 101]
    case CNumber(n) => n
    case CString(s) => Quote(s)
    case CArray(es) => [OPEN_BRACKET] + DropComma(PrintElems(es))
    case CObject(ps) => [OPEN_BRACE] + DropComma(PrintProps(ps))
  }

  function DropComma(t: Text): Text {
    if t != [] && t[0] == COMMA then t[1..] else t
  }

  /** The elements, each after a comma, and the closing bracket. */
  function PrintElems(es: seq<Canon>): (t: Text)
    ensures |t| >= 1 && t[0] == (if es == [] then CLOSE_BRACKET else COMMA)
    decreases es, 0
  {
    if es == [] then [CLOSE_BRACKET]
    else [COMMA] + (Print(es[0]) + PrintElems(es[1..]))
  }

  /** The properties, each after a comma, and the closing brace. */
  function PrintProps(ps: seq<CProp>): (t: Text)
    ensures |t| >= 1 && t[0] == (if ps == [] then CLOSE_BRACE else COMMA)
    decreases ps, 0
  {
    if ps == [] then [CLOSE_BRACE]
    else [COMMA] + (Quote(ps[0].key) + ([COLON] + (Print(ps[0].value) + PrintProps(ps[1..]))))
  }

  /** canonicalJSON; None is the undefined that JSON.stringify returns for undefined. */
  function CanonicalJSON(v: JsValue): Option<Text> {
    match Normalise(v)
    case None => None
    case Some(c) => Some(Print(c))
  }

  /** What may follow a value inside a JSON text. */
  predicate Delimited(t: Text) {
    t == [] || t[0] == COMMA || t[0] == CLOSE_BRACKET || t[0] == CLOSE_BRACE
  }

  /** The kind of value that a first unit announces. */
  function KindOfUnit(u: Unit): int {
    if u == 110 then 0
    else if u == 116 then 1
    else if u == 102 then 2
    else if IsNumeralUnit(u) then 3
    else if u == QUOTE then 4
    else if u == OPEN_BRACKET then 5
    else if u == OPEN_BRACE then 6
    else 7
  }

  function Kind(c: Canon): int {
    match c
    case CNull => 0
    case CBool(b) => if b then 1 else 2
    case CNumber(_) => 3
    case CString(_) => 4
    case CArray(_) => 5
    case CObject(_) => 6
  }

  lemma PrintStart(c: Canon)
    ensures Print(c) != [] && KindOfUnit(Print(c)[0]) == Kind(c)
  {
  }

  lemma SameKind(c: Canon, d: Canon, r: Text, q: Text)
    requires Print(c) + r == Print(d) + q
    ensures Kind(c) == Kind(d)
  {
    PrintStart(c);
    PrintStart(d);
    assert Print(c)[0] == (Print(c) + r)[0] == (Print(d) + q)[0] == Print(d)[0];
  }

  lemma NumeralInjective(n: Numeral, m: Numeral, r: Text, q: Text)
    requires n + r == m + q && Delimited(r) && Delimited(q)
    ensures n == m && r == q
  {
    var whole := n + r;
    assert |n| < |whole| ==> whole[|n|] == r[0] && !IsNumeralUnit(whole[|n|]);
    assert |m| < |whole| ==> whole[|m|] == q[0] && !IsNumeralUnit(whole[|m|]);
    assert forall i :: 0 <= i < |n| ==> IsNumeralUnit(whole[i]);
    assert forall i :: 0 <= i < |m| ==> IsNumeralUnit(whole[i]);
    SplitEqual(n, m, r, q);
  }

  lemma QuoteInjective(s: Text, t: Text, r: Text, q: Text)
    requires Quote(s) + r == Quote(t) + q
    ensures s == t && r == q
  {
    Regroup([QUOTE], QuoteTail(s), r, [QUOTE], QuoteTail(t), q);
    QuoteTailInjective(s, t, r, q);
  }

  /** A printed value and what follows it can be read back. */
  lemma {:induction false} PrintInjective(c: Canon, d: Canon, r: Text, q: Text)
    requires Print(c) + r == Print(d) + q && Delimited(r) && Delimited(q)
    ensures c == d && r == q
    decreases c, 1
  {
    SameKind(c, d, r, q);
    match c
    case CNull => SplitEqual(Print(c), Print(d), r, q);
    case CBool(_) => SplitEqual(Print(c), Print(d), r, q);
    case CNumber(n) => NumeralInjective(n, d.numeral, r, q);
    case CString(s) => QuoteInjective(s, d.s, r, q);
    case CArray(es) =>
      ElemsUndropped(es, d.elems, r, q);
      ElemsInjective(es, d.elems, r, q);
    case CObject(ps) =>
      PropsUndropped(ps, d.props, r, q);
      PropsInjective(ps, d.props, r, q);
  }

  lemma UndropComma(x: Text, y: Text, r: Text, q: Text)
    requires x != [] && y != [] && (x[0] == COMMA) == (y[0] == COMMA)
    requires DropComma(x) + r == DropComma(y) + q
    ensures x + r == y + q
  {
    if x[0] == COMMA {
      assert x + r == [COMMA] + (DropComma(x) + r);
      assert y + q == [COMMA] + (DropComma(y) + q);
    }
  }

  lemma ElemsFirst(es: seq<Canon>, r: Text)
    ensures var t := DropComma(PrintElems(es)) + r; |t| >= 1 && (t[0] == CLOSE_BRACKET <==> es == [])
  {
    if es != [] {
      PrintStart(es[0]);
      assert PrintElems(es)[1..] == Print(es[0]) + PrintElems(es[1..]);
    }
  }

  lemma ElemsUndropped(es: seq<Canon>, fs: seq<Canon>, r: Text, q: Text)
    requires Print(CArray(es)) + r == Print(CArray(fs)) + q
    ensures PrintElems(es) + r == PrintElems(fs) + q
  {
    Regroup([OPEN_BRACKET], DropComma(PrintElems(es)), r, [OPEN_BRACKET], DropComma(PrintElems(fs)), q);
    ElemsFirst(es, r);
    ElemsFirst(fs, q);
    UndropComma(PrintElems(es), PrintElems(fs), r, q);
  }

  lemma PropsFirst(ps: seq<CProp>, r: Text)
    ensures var t := DropComma(PrintProps(ps)) + r; |t| >= 1 && (t[0] == CLOSE_BRACE <==> ps == [])
  {
    if ps != [] {
      assert PrintProps(ps)[1] == QUOTE;
    }
  }

  lemma PropsUndropped(ps: seq<CProp>, qs: seq<CProp>, r: Text, q: Text)
    requires Print(CObject(ps)) + r == Print(CObject(qs)) + q
    ensures PrintProps(ps) + r == PrintProps(qs) + q
  {
    Regroup([OPEN_BRACE], DropComma(PrintProps(ps)), r, [OPEN_BRACE], DropComma(PrintProps(qs)), q);
    PropsFirst(ps, r);
    PropsFirst(qs, q);
    UndropComma(PrintProps(ps), PrintProps(qs), r, q);
  }

  lemma {:induction false} ElemsInjective(es: seq<Canon>, fs: seq<Canon>, r: Text, q: Text)
    requires PrintElems(es) + r == PrintElems(fs) + q
    ensures es == fs && r == q
    decreases es, 0
  {
    assert PrintElems(es)[0] == (PrintElems(es) + r)[0] == (PrintElems(fs) + q)[0] == PrintElems(fs)[0];
    if es == [] {
      SplitEqual([CLOSE_BRACKET], [CLOSE_BRACKET], r, q);
    } else {
      var x, y := PrintElems(es[1..]), PrintElems(fs[1..]);
      Regroup([COMMA], Print(es[0]) + x, r, [COMMA], Print(fs[0]) + y, q);
      Assoc(Print(es[0]), x, r);
      Assoc(Print(fs[0]), y, q);
      PrintInjective(es[0], fs[0], x + r, y + q);
      ElemsInjective(es[1..], fs[1..], r, q);
      assert es == [es[0]] + es[1..] && fs == [fs[0]] + fs[1..];
    }
  }

  lemma {:induction false} PropsInjective(ps: seq<CProp>, qs: seq<CProp>, r: Text, q: Text)
    requires PrintProps(ps) + r == PrintProps(qs) + q
    ensures ps == qs && r == q
    decreases ps, 0
  {
    assert PrintProps(ps)[0] == (PrintProps(ps) + r)[0] == (PrintProps(qs) + q)[0] == PrintProps(qs)[0];
    if ps == [] {
      SplitEqual([CLOSE_BRACE], [CLOSE_BRACE], r, q);
    } else {
      PropsHead(ps, qs, r, q);
      var x, y := PrintProps(ps[1..]), PrintProps(qs[1..]);
      PrintInjective(ps[0].value, qs[0].value, x + r, y + q);
      PropsInjective(ps[1..], qs[1..], r, q);
      assert ps == [ps[0]] + ps[1..] && qs == [qs[0]] + qs[1..];
    }
  }

  /** Reads the first key and leaves the first value with what follows it. */
  lemma PropsHead(ps: seq<CProp>, qs: seq<CProp>, r: Text, q: Text)
    requires ps != [] && qs != [] && PrintProps(ps) + r == PrintProps(qs) + q
    ensures ps[0].key == qs[0].key
    ensures Print(ps[0].value) + (PrintProps(ps[1..]) + r) == Print(qs[0].value) + (PrintProps(qs[1..]) + q)
  {
    var x, y := Print(ps[0].value) + PrintProps(ps[1..]), Print(qs[0].value) + PrintProps(qs[1..]);
    var k, l := Quote(ps[0].key), Quote(qs[0].key);
    Regroup([COMMA], k + ([COLON] + x), r, [COMMA], l + ([COLON] + y), q);
    Assoc(k, [COLON] + x, r);
    Assoc(l, [COLON] + y, q);
    QuoteInjective(ps[0].key, qs[0].key, ([COLON] + x) + r, ([COLON] + y) + q);
    Regroup([COLON], x, r, [COLON], y, q);
    Assoc(Print(ps[0].value), PrintProps(ps[1..]), r);
    Assoc(Print(qs[0].value), PrintProps(qs[1..]), q);
  }

  /** Two values print identically exactly when they agree up to key order. */
  lemma CanonicalJSONExact(v: JsValue, w: JsValue)
    ensures CanonicalJSON(v) == CanonicalJSON(w) <==> Same(v, w)
  {
    NormaliseExact(v, w);
    if CanonicalJSON(v) == CanonicalJSON(w) && Normalise(v).Some? {
      assert Print(Normalise(v).value) + [] == Print(Normalise(w).value) + [];
      PrintInjective(Normalise(v).value, Normalise(w).value, [], []);
    }
  }

  predicate DistinctKeys(ps: seq<Prop>) {
    forall i, j :: 0 <= i < j < |ps| ==> ps[i].key != ps[j].key
  }

  lemma {:induction false} PositionOf(ps: seq<Prop>, i: nat)
    requires DistinctKeys(ps) && i < |ps|
    ensures Position(ps, ps[i].key) == i
  {
    if i < |ps| - 1 {
      PositionOf(ps[..|ps| - 1], i);
    }
  }

  /** Reordering the properties of an object does not change its canonical text. */
  lemma KeyOrderIrrelevant(ps: seq<Prop>, qs: seq<Prop>)
    requires DistinctKeys(ps) && DistinctKeys(qs)
    requires forall p :: p in ps <==> p in qs
    ensures CanonicalJSON(Obj(ps)) == CanonicalJSON(Obj(qs))
  {
    forall k ensures SameField(ps, qs, k) {
      if Position(ps, k) >= 0 {
        assert ps[Position(ps, k)] in qs;
        var j :| 0 <= j < |qs| && qs[j] == ps[Position(ps, k)];
        PositionOf(qs, j);
      }
      if Position(qs, k) >= 0 {
        assert qs[Position(qs, k)] in ps;
        var j :| 0 <= j < |ps| && ps[j] == qs[Position(qs, k)];
        PositionOf(ps, j);
      }
      if Shows(ps, k) && Shows(qs, k) {
        NormaliseExact(ps[Position(ps, k)].value, qs[Position(qs, k)].value);
      }
    }
    CanonicalJSONExact(Obj(ps), Obj(qs));
  }

  ghost predicate AlignedRecords(ps: seq<Prop>, qs: seq<Prop>) {
    && DistinctKeys(ps) && |ps| == |qs|
    && forall i :: 0 <= i < |ps| ==> ps[i].key == qs[i].key && ps[i].key != PROTO
  }

  lemma AlignedPosition(ps: seq<Prop>, qs: seq<Prop>, k: Text)
    requires AlignedRecords(ps, qs)
    ensures Position(ps, k) == Position(qs, k)
  {
    if Position(ps, k) >= 0 {
      PositionOf(qs, Position(ps, k));
    } else if Position(qs, k) >= 0 {
      PositionOf(ps, Position(qs, k));
    }
  }

  /** Objects with the same distinct keys agree exactly when their values agree pairwise. */
  lemma SameRecords(ps: seq<Prop>, qs: seq<Prop>)
    requires AlignedRecords(ps, qs)
    ensures Same(Obj(ps), Obj(qs)) <==> forall i :: 0 <= i < |ps| ==> Same(ps[i].value, qs[i].value)
  {
    if forall i :: 0 <= i < |ps| ==> Same(ps[i].value, qs[i].value) {
      forall k ensures SameField(ps, qs, k) {
        AlignedPosition(ps, qs, k);
      }
    }
    if Same(Obj(ps), Obj(qs)) {
      forall i | 0 <= i < |ps| ensures Same(ps[i].value, qs[i].value) {
        SameRecordField(ps, qs, i);
      }
    }
  }

  lemma SameRecordField(ps: seq<Prop>, qs: seq<Prop>, i: nat)
    requires AlignedRecords(ps, qs) && Same(Obj(ps), Obj(qs)) && i < |ps|
    ensures Same(ps[i].value, qs[i].value)
  {
    PositionOf(ps, i);
    AlignedPosition(ps, qs, ps[i].key);
    assert SameField(ps, qs, ps[i].key);
  }

  /** An own property named __proto__ never reaches the canonical text. */
  lemma ProtoIsInvisible(ps: seq<Prop>, v: JsValue)
    ensures CanonicalJSON(Obj(ps + [Prop(PROTO, v)])) == CanonicalJSON(Obj(ps))
  {
    var qs := ps + [Prop(PROTO, v)];
    assert qs[..|qs| - 1] == ps && qs[|qs| - 1] == Prop(PROTO, v);
    assert NormaliseProps(qs) == NormaliseProps(ps);
  }

  // ----- Printed text is well-formed UTF-16 -----

  lemma DropCommaWellFormed(t: Text)
    requires WellFormed(t)
    ensures WellFormed(DropComma(t))
  {
  }

  lemma QuoteWellFormed(s: Text)
    ensures WellFormed(Quote(s)) && |Quote(s)| >= |s| + 2
  {
    QuoteTailWellFormed(s);
    assert Quote(s)[1..] == QuoteTail(s);
  }

  lemma {:induction false} PrintWellFormed(c: Canon)
    ensures WellFormed(Print(c))
    decreases c, 1
  {
    match c
    case CNull => PlainIsWellFormed(Print(c));
    case CBool(_) => PlainIsWellFormed(Print(c));
    case CNumber(n) => PlainIsWellFormed(n);
    case CString(s) => QuoteWellFormed(s);
    case CArray(es) =>
      ElemsWellFormed(es);
      DropCommaWellFormed(PrintElems(es));
      WellFormedConcat([OPEN_BRACKET], DropComma(PrintElems(es)));
    case CObject(ps) =>
      PropsWellFormed(ps);
      DropCommaWellFormed(PrintProps(ps));
      WellFormedConcat([OPEN_BRACE], DropComma(PrintProps(ps)));
  }

  lemma {:induction false} ElemsWellFormed(es: seq<Canon>)
    ensures WellFormed(PrintElems(es))
    decreases es, 0
  {
    if es != [] {
      PrintWellFormed(es[0]);
      ElemsWellFormed(es[1..]);
      WellFormedConcat(Print(es[0]), PrintElems(es[1..]));
      WellFormedConcat([COMMA], Print(es[0]) + PrintElems(es[1..]));
    }
  }

  lemma {:induction false} PropsWellFormed(ps: seq<CProp>)
    ensures WellFormed(PrintProps(ps))
    decreases ps, 0
  {
    if ps != [] {
      PrintWellFormed(ps[0].value);
      PropsWellFormed(ps[1..]);
      QuoteWellFormed(ps[0].key);
      var x := Print(ps[0].value) + PrintProps(ps[1..]);
      WellFormedConcat(Print(ps[0].value), PrintProps(ps[1..]));
      WellFormedConcat([COLON], x);
      WellFormedConcat(Quote(ps[0].key), [COLON] + x);
      WellFormedConcat([COMMA], Quote(ps[0].key) + ([COLON] + x));
    }
  }

  // ----- Integers -----

  function IntNumeral(n: int): Numeral {
    if n < 0 then [45] + Decimal(-n) else Decimal(n)
  }

  lemma IntNumeralInjective(n: int, m: int)
    requires IntNumeral(n) == IntNumeral(m)
    ensures n == m
  {
    assert IntNumeral(n)[0] == IntNumeral(m)[0];
    if n < 0 {
      assert IntNumeral(n)[1..] == Decimal(-n) && IntNumeral(m)[1..] == Decimal(-m);
      DecimalInjective(-n, -m);
    } else {
      DecimalInjective(n, m);
    }
  }

  // ----- A lower bound on the length of a printed object -----

  /** Each printed property takes its key and at least four more units. */
  function KeyWeight(ps: seq<CProp>): nat {
    if ps == [] then 0 else |ps[0].key| + 4 + KeyWeight(ps[1..])
  }

  lemma {:induction false} KeyWeightAssign(ps: seq<CProp>, k: Text, c: Canon)
    requires Get(ps, k) == None
    ensures KeyWeight(Assign(ps, k, Some(c))) == KeyWeight(ps) + |k| + 4
  {
    var all := Assign(ps, k, Some(c));
    if ps == [] {
      assert all[1..] == [];
    } else if Precedes(k, ps[0].key) {
      assert all[1..] == ps;
    } else {
      KeyWeightAssign(ps[1..], k, c);
      assert all[1..] == Assign(ps[1..], k, Some(c));
    }
  }

  lemma {:induction false} PrintPropsLength(ps: seq<CProp>)
    ensures |PrintProps(ps)| > KeyWeight(ps)
  {
    if ps != [] {
      PrintPropsLength(ps[1..]);
      QuoteWellFormed(ps[0].key);
      PrintStart(ps[0].value);
    }
  }
}
