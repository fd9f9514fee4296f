/** AuditEntry: the signed payload of an entry, its hash and its serialised form. */
module AuditEntry {
  import opened Bytes
  import opened JsText
  import opened CanonicalJson
  import opened JsonReader
  import Base64url

  datatype Entry = Entry(
    sequence: int,
    authorPodId: Text,
    operation: Text,
    data: JsValue,
    previousHash: Bytes,
    timestamp: int,
    signature: Option<Bytes>)

  const SEQUENCE := Literal("sequence")
  const AUTHOR_POD_ID := Literal("authorPodId")
  const OPERATION := Literal("operation")
  const DATA := Literal("data")
  const PREVIOUS_HASH := Literal("previousHash")
  const TIMESTAMP := Literal("timestamp")

  /** The object literal of the signedPayload getter. */
  function PayloadProps(e: Entry): seq<Prop> {
    [Prop(SEQUENCE, Number(IntNumeral(e.sequence))),
     Prop(AUTHOR_POD_ID, Str(e.authorPodId)),
     Prop(OPERATION, Str(e.operation)),
     Prop(DATA, e.data),
     Prop(PREVIOUS_HASH, ByteArray(e.previousHash)),
     Prop(TIMESTAMP, Number(IntNumeral(e.timestamp)))]
  }

  function SignedPayload(e: Entry): Text {
    CanonicalJSON(Obj(PayloadProps(e))).value
  }

  /** The bytes that are signed and hashed. */
  function PayloadBytes(e: Entry): Bytes {
    Utf8(SignedPayload(e))
  }

  function EntryHash(sha: Hasher, e: Entry): Digest {
    sha(PayloadBytes(e))
  }

  /** The entries agree on everything but their signatures, and on data up to key order. */
  ghost predicate SameSigned(e: Entry, f: Entry) {
    && e.sequence == f.sequence
    && e.authorPodId == f.authorPodId
    && e.operation == f.operation
    && Same(e.data, f.data)
    && e.previousHash == f.previousHash
    && e.timestamp == f.timestamp
  }

  lemma PayloadAligned(e: Entry, f: Entry)
    ensures AlignedRecords(PayloadProps(e), PayloadProps(f))
  {
    var ps := PayloadProps(e);
    assert ps[0].key[0] == 115 && ps[1].key[0] == 97 && ps[2].key[0] == 111;
    assert ps[3].key[0] == 100 && ps[4].key[0] == 112 && ps[5].key[0] == 116;
    assert PROTO[0] == 95;
  }

  lemma SameNumbers(n: int, m: int)
    ensures Same(Number(IntNumeral(n)), Number(IntNumeral(m))) <==> n == m
  {
    if IntNumeral(n) == IntNumeral(m) {
      IntNumeralInjective(n, m);
    }
  }

  lemma SameByteArrays(a: Bytes, b: Bytes)
    ensures Same(ByteArray(a), ByteArray(b)) <==> a == b
  {
    if Base64url.Encode(a) == Base64url.Encode(b) {
      Base64url.EncodeInjective(a, b);
    }
  }

  lemma SameStrings(a: Text, b: Text)
    ensures Same(Str(a), Str(b)) <==> a == b
  {
  }

  lemma SameSix(ps: seq<Prop>, qs: seq<Prop>)
    requires |ps| == |qs| == 6
    ensures (forall i :: 0 <= i < 6 ==> Same(ps[i].value, qs[i].value)) <==>
              Same(ps[0].value, qs[0].value) && Same(ps[1].value, qs[1].value) && Same(ps[2].value, qs[2].value) &&
              Same(ps[3].value, qs[3].value) && Same(ps[4].value, qs[4].value) && Same(ps[5].value, qs[5].value)
  {
  }

  lemma SamePayloadValues(e: Entry, f: Entry)
    ensures (forall i :: 0 <= i < 6 ==> Same(PayloadProps(e)[i].value, PayloadProps(f)[i].value))
            <==> SameSigned(e, f)
  {
    SameNumbers(e.sequence, f.sequence);
    SameStrings(e.authorPodId, f.authorPodId);
    SameStrings(e.operation, f.operation);
    SameByteArrays(e.previousHash, f.previousHash);
    SameNumbers(e.timestamp, f.timestamp);
    SameSix(PayloadProps(e), PayloadProps(f));
  }

  lemma SamePayloadProps(e: Entry, f: Entry)
    ensures Same(Obj(PayloadProps(e)), Obj(PayloadProps(f))) <==> SameSigned(e, f)
  {
    PayloadAligned(e, f);
    SameRecords(PayloadProps(e), PayloadProps(f));
    SamePayloadValues(e, f);
  }

  lemma PayloadTextWellFormed(e: Entry)
    ensures WellFormed(SignedPayload(e))
  {
    PrintWellFormed(Normalise(Obj(PayloadProps(e))).value);
  }

  /** The signed bytes determine every signed field, and nothing else. */
  lemma PayloadExact(e: Entry, f: Entry)
    ensures PayloadBytes(e) == PayloadBytes(f) <==> SameSigned(e, f)
  {
    SamePayloadProps(e, f);
    CanonicalJSONExact(Obj(PayloadProps(e)), Obj(PayloadProps(f)));
    PayloadTextWellFormed(e);
    PayloadTextWellFormed(f);
    if PayloadBytes(e) == PayloadBytes(f) {
      Utf8Injective(SignedPayload(e), SignedPayload(f));
    }
  }

  // ----- What is signed -----

  /** Keys that begin with letters are ordered by their first letters. */
  lemma LetterOrder(a: Text, b: Text)
    requires a != [] && b != [] && a[0] < b[0] && !IsDigit(a[0]) && !IsDigit(b[0])
    ensures Precedes(a, b) && !Precedes(b, a) && a != b
  {
  }

  lemma PayloadOrder()
    ensures Precedes(AUTHOR_POD_ID, DATA) && Precedes(DATA, OPERATION) && Precedes(OPERATION, PREVIOUS_HASH)
    ensures Precedes(PREVIOUS_HASH, SEQUENCE) && Precedes(SEQUENCE, TIMESTAMP)
  {
    LetterOrder(AUTHOR_POD_ID, DATA);
    LetterOrder(DATA, OPERATION);
    LetterOrder(OPERATION, PREVIOUS_HASH);
    LetterOrder(PREVIOUS_HASH, SEQUENCE);
    LetterOrder(SEQUENCE, TIMESTAMP);
  }

  /** The members of the payload in the order in which they are written. */
  function PayloadMembers(e: Entry): seq<CProp> {
    [CProp(Literal("authorPodId"), CString(e.authorPodId))]
    + (match Normalise(e.data) case None => [] case Some(c) => [CProp(Literal("data"), c)])
    + [CProp(Literal("operation"), CString(e.operation)),
       CProp(Literal("previousHash"), CString(Base64url.Encode(e.previousHash))),
       CProp(Literal("sequence"), CNumber(IntNumeral(e.sequence))),
       CProp(Literal("timestamp"), CNumber(IntNumeral(e.timestamp)))]
  }

  /**
   * The signed text is a JSON object with exactly these members in this order; data is left out when it is
   * undefined.
   */
  lemma PayloadReads(e: Entry)
    ensures ReadJson(SignedPayload(e)) == Some(CObject(
              [CProp(Literal("authorPodId"), CString(e.authorPodId))]
              + (match Normalise(e.data) case None => [] case Some(c) => [CProp(Literal("data"), c)])
              + [CProp(Literal("operation"), CString(e.operation)),
                 CProp(Literal("previousHash"), CString(Base64url.Encode(e.previousHash))),
                 CProp(Literal("sequence"), CNumber(IntNumeral(e.sequence))),
                 CProp(Literal("timestamp"), CNumber(IntNumeral(e.timestamp)))]))
  {
    PayloadNormal(e);
    PrintRead(CObject(PayloadMembers(e)));
  }

  /** A sorted list of the same properties is what normalising gives. */
  lemma PayloadNormal(e: Entry)
    ensures NormaliseProps(PayloadProps(e)) == PayloadMembers(e)
  {
    PayloadSorted(e);
    NormalisePropsSorted(PayloadProps(e));
    forall k ensures Get(NormaliseProps(PayloadProps(e)), k) == Get(PayloadMembers(e), k) {
      NormalisePropsGet(PayloadProps(e), k);
      PayloadMember(e, k);
    }
    SortedExtensional(NormaliseProps(PayloadProps(e)), PayloadMembers(e));
  }

  lemma PayloadSorted(e: Entry)
    ensures Sorted(PayloadMembers(e))
  {
    var ms := PayloadMembers(e);
    PayloadOrder();
    forall i | 0 <= i < |ms| - 1 ensures Precedes(ms[i].key, ms[i + 1].key) {
      if e.data.Undefined? && i == 0 {
        LetterOrder(AUTHOR_POD_ID, OPERATION);
      }
    }
    SortedByNeighbours(ms);
  }

  lemma {:induction false} SortedByNeighbours(ps: seq<CProp>)
    requires forall i :: 0 <= i < |ps| - 1 ==> Precedes(ps[i].key, ps[i + 1].key)
    ensures Sorted(ps)
  {
    if |ps| > 1 {
      forall i | 0 <= i < |ps| - 2 ensures Precedes(ps[1..][i].key, ps[1..][i + 1].key) {
        assert Precedes(ps[i + 1].key, ps[i + 2].key);
      }
      SortedByNeighbours(ps[1..]);
      SortedCons(ps[0], ps[1..]);
      assert ps == [ps[0]] + ps[1..];
    }
  }

  lemma PayloadMember(e: Entry, k: Text)
    ensures Get(PayloadMembers(e), k)
         == if Shows(PayloadProps(e), k) then Normalise(PayloadProps(e)[Position(PayloadProps(e), k)].value) else None
  {
    var ps, ms := PayloadProps(e), PayloadMembers(e);
    PayloadAligned(e, e);
    PayloadSorted(e);
    if Shows(ps, k) {
      var i := Position(ps, k);
      var j := if i == 1 then 0 else if i == 3 then 1
               else |ms| - (if i == 2 then 4 else if i == 4 then 3 else if i == 0 then 2 else 1);
      GetSorted(ms, j);
    } else {
      forall j | 0 <= j < |ms| ensures ms[j].key != k {
        PayloadKeyShown(e, j);
      }
      GetAbsent(ms, k);
    }
  }

  lemma PayloadKeyShown(e: Entry, j: nat)
    requires j < |PayloadMembers(e)|
    ensures Shows(PayloadProps(e), PayloadMembers(e)[j].key)
  {
    var ps, ms := PayloadProps(e), PayloadMembers(e);
    PayloadAligned(e, e);
    var up := |ms| - j;
    PositionOf(ps, if j == 0 then 1 else if up == 4 then 2 else if up == 3 then 4 else if up == 2 then 0
                   else if up == 1 then 5 else 3);
  }

  /** Integers are written as an optional minus sign and the decimal digits of the magnitude. */
  lemma IntNumeralReads(n: int)
    ensures n >= 0 ==> IsDigits(IntNumeral(n)) && DecimalValue(IntNumeral(n)) == n
    ensures n < 0 ==> IntNumeral(n)[0] == '-' as int && IsDigits(IntNumeral(n)[1..])
                      && DecimalValue(IntNumeral(n)[1..]) == -n
  {
    DecimalRead(if n < 0 then -n else n);
    assert n < 0 ==> IntNumeral(n)[1..] == Decimal(-n);
  }

  // ----- Length of a payload -----

  lemma {:induction false} WeightOfProps(ps: seq<Prop>)
    requires DistinctKeys(ps)
    requires forall i :: 0 <= i < |ps| ==> ps[i].key != PROTO
    ensures KeyWeight(NormaliseProps(ps)) == ShownWeight(ps)
  {
    if ps != [] {
      var init, last := ps[..|ps| - 1], ps[|ps| - 1];
      WeightOfProps(init);
      NormalisePropsSorted(init);
      NormalisePropsGet(init, last.key);
      if last.value.Undefined? {
        AssignNothing(NormaliseProps(init), last.key);
      } else {
        KeyWeightAssign(NormaliseProps(init), last.key, Normalise(last.value).value);
      }
    }
  }

  function ShownWeight(ps: seq<Prop>): nat {
    if ps == [] then 0
    else ShownWeight(ps[..|ps| - 1]) + (if ps[|ps| - 1].value.Undefined? then 0 else |ps[|ps| - 1].key| + 4)
  }

  lemma {:induction false} AssignNothing(ps: seq<CProp>, k: Text)
    requires Get(ps, k) == None
    ensures Assign(ps, k, None) == ps
  {
    if ps != [] {
      if !Precedes(k, ps[0].key) {
        AssignNothing(ps[1..], k);
      }
    }
  }

  lemma ShownWeightPayload(e: Entry)
    ensures ShownWeight(PayloadProps(e)) >= 69
  {
    var ps := PayloadProps(e);
    assert ps[..5][..4] == ps[..4] && ps[..4][..3] == ps[..3] && ps[..3][..2] == ps[..2] && ps[..2][..1] == ps[..1];
    assert ShownWeight(ps[..1]) == 12;
    assert ShownWeight(ps[..2]) == 27;
    assert ShownWeight(ps[..3]) == 40;
    assert ShownWeight(ps[..4]) >= 40;
    assert ShownWeight(ps[..5]) >= 56;
  }

  /** A payload is longer than the two digests hashed for an inner Merkle node. */
  lemma PayloadLongerThanNode(e: Entry)
    ensures |PayloadBytes(e)| > 2 * DIGEST_LENGTH
  {
    PayloadAligned(e, e);
    WeightOfProps(PayloadProps(e));
    ShownWeightPayload(e);
    PrintPropsLength(NormaliseProps(PayloadProps(e)));
  }

  // ----- Serialised form -----

  datatype EntryJson = EntryJson(
    sequence: int,
    authorPodId: Text,
    operation: Text,
    data: JsValue,
    previousHash: Text,
    timestamp: int,
    signature: Option<Text>)

  function ToJson(e: Entry): EntryJson {
    EntryJson(e.sequence, e.authorPodId, e.operation, e.data, Base64url.Encode(e.previousHash), e.timestamp,
              if e.signature.Some? then Some(Base64url.Encode(e.signature.value)) else None)
  }

  /** An empty signature text is falsy and read as no signature; None when base64url decoding fails. */
  function FromJson(j: EntryJson): Option<Entry> {
    var previous := Base64url.Decode(j.previousHash);
    var signature :=
      if j.signature.None? || j.signature.value == [] then Some(None)
      else match Base64url.Decode(j.signature.value) case None => None case Some(b) => Some(Some(b));
    if previous.None? || signature.None? then None
    else Some(Entry(j.sequence, j.authorPodId, j.operation, j.data, previous.value, j.timestamp, signature.value))
  }

  function DropEmptySignature(e: Entry): Entry {
    if e.signature == Some([]) then e.(signature := None) else e
  }

  /** Reading back a serialised entry loses exactly a zero-length signature. */
  lemma EntryRoundTrip(e: Entry)
    ensures FromJson(ToJson(e)) == Some(DropEmptySignature(e))
    ensures FromJson(ToJson(e)) == Some(e) <==> e.signature != Some([])
  {
    Base64url.RoundTrip(e.previousHash);
    if e.signature.Some? {
      Base64url.RoundTrip(e.signature.value);
    }
  }

  /** The object literal of a serialised entry without its signature. */
  function JsonProps(j: EntryJson): seq<Prop> {
    [Prop(Literal("sequence"), Number(IntNumeral(j.sequence))),
     Prop(Literal("authorPodId"), Str(j.authorPodId)),
     Prop(Literal("operation"), Str(j.operation)),
     Prop(Literal("data"), j.data),
     Prop(Literal("previousHash"), Str(j.previousHash)),
     Prop(Literal("timestamp"), Number(IntNumeral(j.timestamp)))]
  }

  /**
   * The serialised form without its signature has the signed payload as its canonical text, and its signature
   * text decodes to the signature.
   */
  lemma JsonIsSigned(e: Entry)
    ensures CanonicalJSON(Obj(JsonProps(ToJson(e)))) == Some(SignedPayload(e))
    ensures match (e.signature, ToJson(e).signature)
            case (None, t) => t == None
            case (Some(b), t) => t.Some? && Base64url.Decode(t.value) == Some(b)
  {
    var ps, qs := PayloadProps(e), JsonProps(ToJson(e));
    JsonAligned(e);
    SameRecords(ps, qs);
    JsonValues(e);
    CanonicalJSONExact(Obj(ps), Obj(qs));
    if e.signature.Some? {
      Base64url.RoundTrip(e.signature.value);
    }
  }

  lemma JsonAligned(e: Entry)
    ensures AlignedRecords(PayloadProps(e), JsonProps(ToJson(e)))
  {
    PayloadAligned(e, e);
  }

  lemma JsonValues(e: Entry)
    ensures var ps, qs := PayloadProps(e), JsonProps(ToJson(e));
            forall i :: 0 <= i < 6 ==> Same(ps[i].value, qs[i].value)
  {
    SameReflexive(e.data);
    SameSix(PayloadProps(e), JsonProps(ToJson(e)));
  }

  lemma SameReflexive(v: JsValue)
    ensures Same(v, v)
  {
    NormaliseExact(v, v);
  }

  /** Reading an entry fails exactly when a text does not decode, and takes every other field as it is. */
  lemma FromJsonMeans(j: EntryJson)
    ensures var hash := Base64url.Decode(j.previousHash);
            var signed := j.signature.Some? && |j.signature.value| > 0;
            match FromJson(j)
            case None => hash == None || (signed && Base64url.Decode(j.signature.value) == None)
            case Some(e) =>
              && e.sequence == j.sequence && e.authorPodId == j.authorPodId && e.operation == j.operation
              && e.data == j.data && e.timestamp == j.timestamp && hash == Some(e.previousHash)
              && e.signature == (if signed then Base64url.Decode(j.signature.value) else None)
              && (signed ==> e.signature.Some?)
  {
  }
}
