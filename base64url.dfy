/**
 * Base64url without padding: the URL- and filename-safe alphabet of section 5
 * of RFC 4648, with the `=` padding omitted as section 3.2 of RFC 4648 allows.
 * This is the `URL_SAFE_NO_PAD` engine that the claims extractor decodes the
 * payload segment with.
 *
 * `Decode` works on groups of four characters (three bytes) and a final group
 * of two or three characters (one or two bytes). `Encode` is its companion,
 * used to state the round trips.
 */
module Base64Url {
  import opened Wrappers

  type byte = b: int | 0 <= b < 256

  /** A 6-bit value, the meaning of one alphabet character. */
  type sextet = v: int | 0 <= v < 64

  /** The 64 characters `A-Z a-z 0-9 - _`; `+`, `/` and `=` are not among them. */
  predicate IsUrlSafeChar(c: char) {
    'A' <= c <= 'Z' || 'a' <= c <= 'z' || '0' <= c <= '9' || c == '-' || c == '_'
  }

  /** The character that stands for the 6-bit value `v`. */
  function CharOf(v: sextet): (c: char)
    ensures IsUrlSafeChar(c)
  {
    if v < 26 then ('A' as int + v) as char
    else if v < 52 then ('a' as int + (v - 26)) as char
    else if v < 62 then ('0' as int + (v - 52)) as char
    else if v == 62 then '-'
    else '_'
  }

  /** The 6-bit value of an alphabet character. */
  function ValueOf(c: char): (v: sextet)
    requires IsUrlSafeChar(c)
    ensures CharOf(v) == c
  {
    if 'A' <= c <= 'Z' then c as int - 'A' as int
    else if 'a' <= c <= 'z' then c as int - 'a' as int + 26
    else if '0' <= c <= '9' then c as int - '0' as int + 52
    else if c == '-' then 62
    else 63
  }

  lemma ValueOfCharOf(v: sextet)
    ensures ValueOf(CharOf(v)) == v
  {
  }

  /** Every character of `s` is in the alphabet. */
  predicate AllUrlSafe(s: string) {
    forall i | 0 <= i < |s| :: IsUrlSafeChar(s[i])
  }

  // ---------------------------------------------------------------------------
  // Decoding

  /** The three bytes carried by a group of four alphabet characters (24 bits). */
  function QuadBytes(q: string): (b: seq<byte>)
    requires |q| == 4 && AllUrlSafe(q)
    ensures |b| == 3
  {
    var v0, v1, v2, v3 := ValueOf(q[0]), ValueOf(q[1]), ValueOf(q[2]), ValueOf(q[3]);
    [v0 * 4 + v1 / 16, (v1 % 16) * 16 + v2 / 4, (v2 % 4) * 64 + v3]
  }

  /**
   * The final group: two characters carry one byte and four unused bits,
   * three characters carry two bytes and two unused bits. Unless
   * `allowTrailingBits` holds, unused bits that are not zero are an error
   * (section 3.5 of RFC 4648: such an encoding is not canonical).
   */
  function DecodeFinal(s: string, allowTrailingBits: bool): (r: Option<seq<byte>>)
    requires 2 <= |s| <= 3
    ensures r.Some? ==> |r.value| == |s| - 1
  {
    if !AllUrlSafe(s) then None
    else
      var v0, v1 := ValueOf(s[0]), ValueOf(s[1]);
      if |s| == 2 then
        if allowTrailingBits || v1 % 16 == 0 then Some([v0 * 4 + v1 / 16]) else None
      else
        var v2 := ValueOf(s[2]);
        if allowTrailingBits || v2 % 4 == 0 then Some([v0 * 4 + v1 / 16, (v1 % 16) * 16 + v2 / 4]) else None
  }

  /**
   * Decodes unpadded base64url text. Fails when a character is outside the
   * alphabet, when the length is 1 more than a multiple of 4, and (unless
   * `allowTrailingBits`) when the last character carries non-zero unused bits.
   */
  function Decode(s: string, allowTrailingBits: bool): (r: Option<seq<byte>>)
    ensures r.Some? ==> |r.value| == |s| * 3 / 4
    decreases |s|
  {
    if |s| == 0 then Some([])
    else if |s| == 1 then None
    else if |s| < 4 then DecodeFinal(s, allowTrailingBits)
    else if !AllUrlSafe(s[..4]) then None
    else
      var rest :- Decode(s[4..], allowTrailingBits);
      Some(QuadBytes(s[..4]) + rest)
  }

  // ---------------------------------------------------------------------------
  // Encoding (the companion of Decode)

  /** The four characters that carry three bytes. */
  function QuadChars(b0: byte, b1: byte, b2: byte): (q: string)
    ensures |q| == 4 && AllUrlSafe(q)
  {
    [CharOf(b0 / 4), CharOf((b0 % 4) * 16 + b1 / 16), CharOf((b1 % 16) * 4 + b2 / 64), CharOf(b2 % 64)]
  }

  /** The final group for a last byte (two characters) or a last two bytes (three), unused bits zero. */
  function FinalChars(b: seq<byte>): (s: string)
    requires 1 <= |b| <= 2
    ensures |s| == |b| + 1 && AllUrlSafe(s)
  {
    if |b| == 1 then [CharOf(b[0] / 4), CharOf((b[0] % 4) * 16)]
    else [CharOf(b[0] / 4), CharOf((b[0] % 4) * 16 + b[1] / 16), CharOf((b[1] % 16) * 4)]
  }

  /** Unpadded base64url text of `b`: four characters per three bytes, then two or three. */
  function Encode(b: seq<byte>): (s: string)
    ensures AllUrlSafe(s)
    decreases |b|
  {
    if |b| == 0 then []
    else if |b| < 3 then FinalChars(b)
    else
      var q, rest := QuadChars(b[0], b[1], b[2]), Encode(b[3..]);
      assert forall i | 0 <= i < |q + rest| :: (q + rest)[i] == if i < 4 then q[i] else rest[i - 4];
      q + rest
  }

  // ---------------------------------------------------------------------------
  // Properties

  /** Four characters per three bytes, then two for a last byte or three for a last two: never 1 more than a multiple of 4. */
  lemma {:induction false} EncodedLength(b: seq<byte>)
    ensures |Encode(b)| == (4 * |b| + 2) / 3
    ensures |Encode(b)| % 4 != 1
    decreases |b|
  {
    if |b| >= 3 {
      EncodedLength(b[3..]);
    }
  }

  /** Any character outside the alphabet, wherever it stands (`=`, `+`, `/` included), makes decoding fail. */
  lemma {:induction false} DecodeRejectsForeignChar(s: string, i: nat, allowTrailingBits: bool)
    requires i < |s| && !IsUrlSafeChar(s[i])
    ensures Decode(s, allowTrailingBits) == None
    decreases |s|
  {
    if 4 <= |s| {
      if i < 4 {
        assert s[..4][i] == s[i];
      } else {
        assert s[4..][i - 4] == s[i];
        DecodeRejectsForeignChar(s[4..], i - 4, allowTrailingBits);
      }
    }
  }

  /** A text whose length is 1 more than a multiple of 4 never decodes. */
  lemma {:induction false} DecodeRejectsLengthOneModFour(s: string, allowTrailingBits: bool)
    requires |s| % 4 == 1
    ensures Decode(s, allowTrailingBits) == None
    decreases |s|
  {
    if 4 < |s| {
      DecodeRejectsLengthOneModFour(s[4..], allowTrailingBits);
    }
  }

  /** Successful decoding implies every character was in the alphabet and the length was admissible. */
  lemma DecodedTextIsWellFormed(s: string, allowTrailingBits: bool)
    requires Decode(s, allowTrailingBits).Some?
    ensures |s| % 4 != 1
    ensures AllUrlSafe(s)
  {
    if |s| % 4 == 1 {
      DecodeRejectsLengthOneModFour(s, allowTrailingBits);
    }
    forall i | 0 <= i < |s|
      ensures IsUrlSafeChar(s[i])
    {
      if !IsUrlSafeChar(s[i]) {
        DecodeRejectsForeignChar(s, i, allowTrailingBits);
      }
    }
  }

  /** The four characters that carry three bytes decode back to them. */
  lemma QuadRoundTrip(b0: byte, b1: byte, b2: byte)
    ensures QuadBytes(QuadChars(b0, b1, b2)) == [b0, b1, b2]
  {
    var v0, v1, v2, v3 := b0 / 4, (b0 % 4) * 16 + b1 / 16, (b1 % 16) * 4 + b2 / 64, b2 % 64;
    ValueOfCharOf(v0);
    ValueOfCharOf(v1);
    ValueOfCharOf(v2);
    ValueOfCharOf(v3);
    assert v0 * 4 + v1 / 16 == b0;
    assert (v1 % 16) * 16 + v2 / 4 == b1;
    assert (v2 % 4) * 64 + v3 == b2;
  }

  /** A group of four alphabet characters is the encoding of the three bytes it carries. */
  lemma QuadCanonical(q: string)
    requires |q| == 4 && AllUrlSafe(q)
    ensures var b := QuadBytes(q); QuadChars(b[0], b[1], b[2]) == q
  {
    var v0, v1, v2, v3 := ValueOf(q[0]), ValueOf(q[1]), ValueOf(q[2]), ValueOf(q[3]);
    var b := QuadBytes(q);
    assert b[0] / 4 == v0 && (b[0] % 4) * 16 + b[1] / 16 == v1;
    assert (b[1] % 16) * 4 + b[2] / 64 == v2 && b[2] % 64 == v3;
    assert q == [CharOf(v0), CharOf(v1), CharOf(v2), CharOf(v3)];
  }

  /** The final group of one or two bytes decodes back to them, in either mode. */
  lemma FinalRoundTrip(b: seq<byte>, allowTrailingBits: bool)
    requires 1 <= |b| <= 2
    ensures DecodeFinal(FinalChars(b), allowTrailingBits) == Some(b)
  {
    if |b| == 1 {
      ValueOfCharOf(b[0] / 4);
      ValueOfCharOf((b[0] % 4) * 16);
      assert b == [b[0]];
    } else {
      var v0, v1, v2 := b[0] / 4, (b[0] % 4) * 16 + b[1] / 16, (b[1] % 16) * 4;
      ValueOfCharOf(v0);
      ValueOfCharOf(v1);
      ValueOfCharOf(v2);
      assert v0 * 4 + v1 / 16 == b[0];
      assert (v1 % 16) * 16 + v2 / 4 == b[1];
      assert b == [b[0], b[1]];
    }
  }

  /** Strict decoding of a final group accepts only the encoding of what it returns. */
  lemma FinalCanonical(s: string, b: seq<byte>)
    requires 2 <= |s| <= 3 && DecodeFinal(s, false) == Some(b)
    ensures FinalChars(b) == s
  {
    var v0, v1 := ValueOf(s[0]), ValueOf(s[1]);
    if |s| == 2 {
      assert b[0] / 4 == v0 && (b[0] % 4) * 16 == v1;
      assert s == [CharOf(v0), CharOf(v1)];
    } else {
      var v2 := ValueOf(s[2]);
      assert b[0] / 4 == v0 && (b[0] % 4) * 16 + b[1] / 16 == v1 && (b[1] % 16) * 4 == v2;
      assert s == [CharOf(v0), CharOf(v1), CharOf(v2)];
    }
  }

  /** One step of Decode over a leading group of four alphabet characters. */
  lemma DecodeQuadStep(q: string, t: string, allowTrailingBits: bool)
    requires |q| == 4 && AllUrlSafe(q)
    ensures Decode(q + t, allowTrailingBits)
         == if Decode(t, allowTrailingBits).Some? then Some(QuadBytes(q) + Decode(t, allowTrailingBits).value) else None
  {
    assert (q + t)[..4] == q;
    assert (q + t)[4..] == t;
  }

  /** Decoding the encoding of any byte string gives back exactly that byte string, in either mode. */
  lemma {:induction false} DecodeEncode(b: seq<byte>, allowTrailingBits: bool)
    ensures Decode(Encode(b), allowTrailingBits) == Some(b)
    decreases |b|
  {
    if 1 <= |b| <= 2 {
      FinalRoundTrip(b, allowTrailingBits);
    } else if |b| >= 3 {
      var q := QuadChars(b[0], b[1], b[2]);
      assert Encode(b) == q + Encode(b[3..]);
      DecodeEncode(b[3..], allowTrailingBits);
      DecodeQuadStep(q, Encode(b[3..]), allowTrailingBits);
      QuadRoundTrip(b[0], b[1], b[2]);
      assert b == [b[0], b[1], b[2]] + b[3..];
    }
  }

  /**
   * Strict decoding accepts only canonical text: whatever it accepts is
   * exactly the encoding of what it returns. With `DecodeEncode`, strict
   * decoding and encoding are inverse bijections.
   */
  lemma {:induction false} EncodeDecode(s: string, b: seq<byte>)
    requires Decode(s, false) == Some(b)
    ensures Encode(b) == s
    decreases |s|
  {
    if 4 <= |s| {
      var q, rest := s[..4], Decode(s[4..], false).value;
      assert b == QuadBytes(q) + rest;
      EncodeDecode(s[4..], rest);
      QuadCanonical(q);
      assert b[3..] == rest;
      assert s == q + s[4..];
    } else if 2 <= |s| {
      FinalCanonical(s, b);
    }
  }

  /** Allowing trailing bits only widens what decodes; where strict decoding succeeds, both agree. */
  lemma {:induction false} StrictDecodeRefinesLenient(s: string)
    requires Decode(s, false).Some?
    ensures Decode(s, true) == Decode(s, false)
    decreases |s|
  {
    if 4 <= |s| {
      StrictDecodeRefinesLenient(s[4..]);
    }
  }

  /** The two modes differ: "QR" has non-zero unused bits, "QQ" is the canonical text of the byte 65. */
  lemma TrailingBitsMatter()
    ensures Decode("QR", false) == None
    ensures Decode("QR", true) == Some([65])
    ensures Encode([65]) == "QQ"
  {
    assert ValueOf('Q') == 16;
    assert ValueOf('R') == 17;
  }
}
