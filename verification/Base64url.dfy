/** The unpadded base64url codec of section 5 of RFC 4648. */
module Base64url {
  import opened Bytes
  import opened JsText

  function Letter(n: int): (u: Unit)
    requires 0 <= n < 64
    ensures !IsSurrogate(u)
  {
    if n < 26 then 65 + n
    else if n < 52 then 71 + n
    else if n < 62 then n - 4
    else if n == 62 then 45
    else 95
  }

  /** The value of a letter, or -1 outside the alphabet. */
  function LetterValue(u: Unit): (n: int)
    ensures -1 <= n < 64
  {
    if 65 <= u < 91 then u - 65
    else if 97 <= u < 123 then u - 71
    else if IsDigit(u) then u + 4
    else if u == 45 then 62
    else if u == 95 then 63
    else -1
  }

  lemma LetterRoundTrip(n: int)
    requires 0 <= n < 64
    ensures LetterValue(Letter(n)) == n
  {
  }

  function Encode(b: Bytes): (t: Text)
    ensures t == [] <==> b == []
  {
    if b == [] then []
    else if |b| == 1 then [Letter(b[0] / 4), Letter(b[0] % 4 * 16)]
    else if |b| == 2 then [Letter(b[0] / 4), Letter(b[0] % 4 * 16 + b[1] / 16), Letter(b[1] % 16 * 4)]
    else
      [Letter(b[0] / 4), Letter(b[0] % 4 * 16 + b[1] / 16), Letter(b[1] % 16 * 4 + b[2] / 64), Letter(b[2] % 64)]
      + Encode(b[3..])
  }

  /** Decodes text; None when a letter is outside the alphabet or one letter is left over. */
  function Decode(t: Text): Option<Bytes> {
    if t == [] then Some([])
    else if |t| == 1 || LetterValue(t[0]) < 0 || LetterValue(t[1]) < 0 then None
    else
      var x, y := LetterValue(t[0]), LetterValue(t[1]);
      if |t| == 2 then Some([x * 4 + y / 16])
      else if LetterValue(t[2]) < 0 then None
      else
        var z := LetterValue(t[2]);
        if |t| == 3 then Some([x * 4 + y / 16, y % 16 * 16 + z / 4])
        else if LetterValue(t[3]) < 0 then None
        else
          match Decode(t[4..])
          case None => None
          case Some(rest) =>
            Some([x * 4 + y / 16, y % 16 * 16 + z / 4, z % 4 * 64 + LetterValue(t[3])] + rest)
  }

  lemma DecodeStep(x: int, y: int, z: int, w: int, rest: Text)
    requires 0 <= x < 64 && 0 <= y < 64 && 0 <= z < 64 && 0 <= w < 64
    requires Decode(rest).Some?
    ensures Decode([Letter(x), Letter(y), Letter(z), Letter(w)] + rest)
         == Some([x * 4 + y / 16, y % 16 * 16 + z / 4, z % 4 * 64 + w] + Decode(rest).value)
  {
    LetterRoundTrip(x);
    LetterRoundTrip(y);
    LetterRoundTrip(z);
    LetterRoundTrip(w);
    var t := [Letter(x), Letter(y), Letter(z), Letter(w)] + rest;
    assert t[4..] == rest;
  }

  lemma DecodeThree(x: int, y: int, z: int)
    requires 0 <= x < 64 && 0 <= y < 64 && 0 <= z < 64
    ensures Decode([Letter(x), Letter(y), Letter(z)]) == Some([x * 4 + y / 16, y % 16 * 16 + z / 4])
  {
    LetterRoundTrip(x);
    LetterRoundTrip(y);
    LetterRoundTrip(z);
  }

  lemma DecodeTwo(x: int, y: int)
    requires 0 <= x < 64 && 0 <= y < 64
    ensures Decode([Letter(x), Letter(y)]) == Some([x * 4 + y / 16])
  {
    LetterRoundTrip(x);
    LetterRoundTrip(y);
  }

  lemma Sextets(p: Byte, q: Byte, r: Byte)
    ensures var y, z := p % 4 * 16 + q / 16, q % 16 * 4 + r / 64;
            p / 4 * 4 + y / 16 == p && y % 16 * 16 + z / 4 == q && z % 4 * 64 + r % 64 == r
  {
  }

  lemma RoundTripOne(p: Byte)
    ensures Decode(Encode([p])) == Some([p])
  {
    DecodeTwo(p / 4, p % 4 * 16);
    Sextets(p, 0, 0);
  }

  lemma EncodeGroup(p: Byte, q: Byte, r: Byte, rest: Bytes)
    ensures Encode([p, q, r] + rest)
         == [Letter(p / 4), Letter(p % 4 * 16 + q / 16), Letter(q % 16 * 4 + r / 64), Letter(r % 64)] + Encode(rest)
  {
    assert ([p, q, r] + rest)[3..] == rest;
  }

  lemma RoundTripThree(p: Byte, q: Byte, r: Byte, rest: Bytes)
    requires Decode(Encode(rest)) == Some(rest)
    ensures Decode(Encode([p, q, r] + rest)) == Some([p, q, r] + rest)
  {
    EncodeGroup(p, q, r, rest);
    var x, y, z, w := p / 4, p % 4 * 16 + q / 16, q % 16 * 4 + r / 64, r % 64;
    DecodeStep(x, y, z, w, Encode(rest));
    Sextets(p, q, r);
  }

  lemma RoundTripTwo(p: Byte, q: Byte)
    ensures Decode(Encode([p, q])) == Some([p, q])
  {
    DecodeThree(p / 4, p % 4 * 16 + q / 16, q % 16 * 4);
    Sextets(p, q, 0);
  }

  /** Decoding undoes encoding on every byte string. */
  lemma {:induction false} RoundTrip(b: Bytes)
    ensures Decode(Encode(b)) == Some(b)
  {
    if |b| == 1 {
      RoundTripOne(b[0]);
      assert b == [b[0]];
    } else if |b| == 2 {
      RoundTripTwo(b[0], b[1]);
      assert b == [b[0], b[1]];
    } else if |b| > 2 {
      RoundTrip(b[3..]);
      RoundTripThree(b[0], b[1], b[2], b[3..]);
      assert b == [b[0], b[1], b[2]] + b[3..];
    }
  }

  lemma EncodeInjective(a: Bytes, b: Bytes)
    requires Encode(a) == Encode(b)
    ensures a == b
  {
    RoundTrip(a);
    RoundTrip(b);
  }

  // ----- What the text means -----

  /** The URL-safe alphabet: A to Z, a to z, 0 to 9, minus, underscore. */
  lemma Alphabet(n: int)
    requires 0 <= n < 64
    ensures Letter(n) == if n < 26 then 'A' as int + n
                         else if n < 52 then 'a' as int + (n - 26)
                         else if n < 62 then '0' as int + (n - 52)
                         else if n == 62 then '-' as int
                         else '_' as int
  {
  }

  lemma {:induction false} EncodeLength(b: Bytes)
    ensures |Encode(b)| == (4 * |b| + 2) / 3
  {
    if |b| > 2 {
      EncodeLength(b[3..]);
    }
  }

  lemma SextetsOne(p: Byte)
    ensures p / 4 * 64 + p % 4 * 16 == p * 16
  {
  }

  lemma SextetsTwo(p: Byte, q: Byte)
    ensures (p / 4 * 64 + (p % 4 * 16 + q / 16)) * 64 + q % 16 * 4 == (p * 256 + q) * 4
  {
  }

  lemma SextetsThree(p: Byte, q: Byte, r: Byte)
    ensures ((p / 4 * 64 + (p % 4 * 16 + q / 16)) * 64 + (q % 16 * 4 + r / 64)) * 64 + r % 64 == (p * 256 + q) * 256 + r
  {
  }

  /** Two, three or four letters in base 64 with the highest digit first. */
  function Number64(t: Text): int
    requires |t| >= 2
  {
    var two := LetterValue(t[0]) * 64 + LetterValue(t[1]);
    if |t| == 2 then two
    else if |t| == 3 then two * 64 + LetterValue(t[2])
    else (two * 64 + LetterValue(t[2])) * 64 + LetterValue(t[3])
  }

  lemma FirstLetters(b: Bytes)
    requires b != []
    ensures |b| == 1 ==> |Encode(b)| == 2 && Number64(Encode(b)) == b[0] as int * 16
    ensures |b| == 2 ==> |Encode(b)| == 3 && Number64(Encode(b)) == (b[0] as int * 256 + b[1]) * 4
  {
    if |b| == 1 {
      LetterRoundTrip(b[0] / 4);
      LetterRoundTrip(b[0] % 4 * 16);
      SextetsOne(b[0]);
    } else if |b| == 2 {
      LetterRoundTrip(b[0] / 4);
      LetterRoundTrip(b[0] % 4 * 16 + b[1] / 16);
      LetterRoundTrip(b[1] % 16 * 4);
      SextetsTwo(b[0], b[1]);
    }
  }

  lemma Number64Letters(x: int, y: int, z: int, w: int)
    requires 0 <= x < 64 && 0 <= y < 64 && 0 <= z < 64 && 0 <= w < 64
    ensures Number64([Letter(x), Letter(y), Letter(z), Letter(w)]) == ((x * 64 + y) * 64 + z) * 64 + w
  {
    LetterRoundTrip(x);
    LetterRoundTrip(y);
    LetterRoundTrip(z);
    LetterRoundTrip(w);
  }

  lemma FirstFour(b: Bytes)
    requires |b| > 2
    ensures |Encode(b)| >= 4 && Number64(Encode(b)[..4]) == (b[0] as int * 256 + b[1]) * 256 + b[2]
  {
    var x, y, z, w := b[0] / 4, b[0] % 4 * 16 + b[1] / 16, b[1] % 16 * 4 + b[2] / 64, b[2] % 64;
    Number64Letters(x, y, z, w);
    SextetsThree(b[0], b[1], b[2]);
    FirstLettersOf(b, [Letter(x), Letter(y), Letter(z), Letter(w)]);
  }

  lemma FirstLettersOf(b: Bytes, letters: Text)
    requires |b| > 2 && |letters| == 4 && Encode(b) == letters + Encode(b[3..])
    ensures |Encode(b)| >= 4 && Encode(b)[..4] == letters
  {
  }

  lemma AfterFirstFour(b: Bytes, i: nat)
    requires 0 < i && 3 * i < |b|
    ensures |Encode(b)| == 4 + |Encode(b[3..])|
    ensures 4 * i <= |Encode(b)| ==> Encode(b)[4 * i..] == Encode(b[3..])[4 * (i - 1)..]
    ensures 4 * i + 4 <= |Encode(b)| ==>
              Encode(b)[4 * i..4 * i + 4] == Encode(b[3..])[4 * (i - 1)..4 * (i - 1) + 4]
  {
    EncodeGroup(b[0], b[1], b[2], b[3..]);
    assert b == [b[0], b[1], b[2]] + b[3..];
    assert Encode(b)[4..] == Encode(b[3..]);
  }

  /**
   * What is encoded: each three bytes are written as the four letters of the same number, and one or two
   * last bytes as the letters of that number shifted left by four or two bits.
   */
  lemma {:induction false} EncodeMeans(b: Bytes, i: nat)
    requires 3 * i < |b|
    ensures |Encode(b)| == (4 * |b| + 2) / 3
    ensures 3 * i + 3 <= |b| ==>
              Number64(Encode(b)[4 * i..4 * i + 4]) == (b[3 * i] as int * 256 + b[3 * i + 1]) * 256 + b[3 * i + 2]
    ensures 3 * i + 2 == |b| ==> Number64(Encode(b)[4 * i..]) == (b[3 * i] as int * 256 + b[3 * i + 1]) * 4
    ensures 3 * i + 1 == |b| ==> Number64(Encode(b)[4 * i..]) == b[3 * i] as int * 16
  {
    EncodeLength(b);
    if i > 0 {
      EncodeMeans(b[3..], i - 1);
      AfterFirstFour(b, i);
    } else if |b| > 2 {
      FirstFour(b);
    } else {
      FirstLetters(b);
      assert Encode(b)[0..] == Encode(b);
    }
  }
}
