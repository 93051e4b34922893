/**
 * `decode_payload_insecurely` (src/lib.rs): reads the claims out of a token
 * without checking its signature, its issuer or any of its timestamps.
 *
 * Three stages, each of which can fail, and the first failure is returned:
 *   1. the token is split on `.` and its second part is taken (in the JWS
 *      Compact Serialization of section 7.1 of RFC 7515, the payload);
 *   2. that part is decoded as base64url without padding;
 *   3. the bytes are parsed as JSON and read as the claims record.
 * The JSON text parser is a parameter (`parseJson`), and so is the decoder of
 * the caller's access-claims type (`decodeAc`).
 */
module Extractor {
  import opened Wrappers
  import opened Json
  import opened Segments
  import opened Types
  import Base64Url

  /** The three kinds of failure, in the order the stages can produce them. */
  datatype ExtractError = MissingPayload | InvalidEncoding | SchemaMismatch

  const Separator: char := '.'

  /** `URL_SAFE_NO_PAD` rejects non-zero unused bits in the last character. */
  const AllowTrailingBits := false

  /** Stage 1: the second `.`-separated part of the token, if the token has one. */
  function PayloadSegment(token: string): (r: Option<string>)
    ensures r.None? <==> Separator !in token
    ensures r.Some? ==> Separator !in r.value
  {
    var parts := Split(token, Separator);
    if |parts| < 2 then None else Some(parts[1])
  }

  /** Stage 3: JSON text to claims record; a failure of either step is a schema mismatch. */
  function ParseClaims<T>(bytes: seq<Base64Url.byte>, parseJson: seq<Base64Url.byte> -> Option<Value>,
                          decodeAc: Option<Value> -> Option<T>): (r: Result<Claims<T>, ExtractError>)
    ensures r.Err? ==> r.error == SchemaMismatch
    ensures r.Ok? <==> parseJson(bytes).Some? && FromJson(parseJson(bytes).value, decodeAc).Some?
  {
    match parseJson(bytes)
    case None => Err(SchemaMismatch)
    case Some(v) => FromJson(v, decodeAc).ToResult(SchemaMismatch)
  }

  /**
   * The extractor. The error says which stage failed first: no payload part,
   * payload part not valid base64url, or payload not a claims record.
   */
  function DecodePayloadInsecurely<T>(token: string, parseJson: seq<Base64Url.byte> -> Option<Value>,
                                      decodeAc: Option<Value> -> Option<T>): (r: Result<Claims<T>, ExtractError>)
    ensures r == Err(MissingPayload) <==> Separator !in token
    ensures r == Err(InvalidEncoding) <==>
      Separator in token && Base64Url.Decode(PayloadSegment(token).value, AllowTrailingBits).None?
    ensures r.Ok? || r == Err(SchemaMismatch) ==>
      && PayloadSegment(token).Some?
      && Base64Url.Decode(PayloadSegment(token).value, AllowTrailingBits).Some?
      && r == ParseClaims(Base64Url.Decode(PayloadSegment(token).value, AllowTrailingBits).value, parseJson, decodeAc)
  {
    var segment :- PayloadSegment(token).ToResult(MissingPayload);
    var bytes :- Base64Url.Decode(segment, AllowTrailingBits).ToResult(InvalidEncoding);
    ParseClaims(bytes, parseJson, decodeAc)
  }

  // ---------------------------------------------------------------------------
  // Properties

  /**
   * Only the second part is selected: a token made of a first part, the
   * payload, and either nothing or a `.` followed by anything, yields exactly
   * the payload. In particular a token of two parts, with no signature part,
   * has a payload.
   */
  lemma PayloadSegmentOf(header: string, payload: string, tail: string)
    requires Separator !in header && Separator !in payload
    requires tail == [] || tail[0] == Separator
    ensures PayloadSegment(header + [Separator] + payload + tail) == Some(payload)
  {
    var token := header + [Separator] + payload + tail;
    assert token == header + [Separator] + (payload + tail);
    SplitAtFirstSeparator(header, payload + tail, Separator);
    SecondPart(payload, tail);
  }

  /** The part that follows the first separator ends where the tail begins. */
  lemma SecondPart(payload: string, tail: string)
    requires Separator !in payload
    requires tail == [] || tail[0] == Separator
    ensures Split(payload + tail, Separator)[0] == payload
  {
    if tail == [] {
      assert payload + tail == payload;
      SplitWithoutSeparator(payload, Separator);
    } else {
      assert payload + tail == payload + [Separator] + tail[1..];
      SplitAtFirstSeparator(payload, tail[1..], Separator);
    }
  }

  /**
   * Conversely, every token that has a payload part is of that shape: a first
   * part, a `.`, the payload, then nothing or a `.` and the rest.
   */
  lemma PayloadSegmentShape(token: string) returns (header: string, tail: string)
    requires PayloadSegment(token).Some?
    ensures Separator !in header
    ensures tail == [] || tail[0] == Separator
    ensures token == header + [Separator] + PayloadSegment(token).value + tail
  {
    var parts := Split(token, Separator);
    JoinSplit(token, Separator);
    header := parts[0];
    tail := if |parts| == 2 then [] else [Separator] + Join(parts[2..], Separator);
    JoinOfThreeOrMore(parts, tail);
  }

  /** Joining two or more parts: the first, a separator, the second, then the rest with its own separator. */
  lemma JoinOfThreeOrMore(parts: seq<string>, tail: string)
    requires |parts| >= 2
    requires tail == if |parts| == 2 then [] else [Separator] + Join(parts[2..], Separator)
    ensures Join(parts, Separator) == parts[0] + [Separator] + parts[1] + tail
  {
    assert parts[1..][1..] == parts[2..];
  }

  /**
   * The first part and everything after the second part are never looked at:
   * two tokens with the same payload part give the same result.
   */
  lemma HeaderAndSignatureIgnored<T>(header1: string, header2: string, payload: string, tail1: string, tail2: string,
                                     parseJson: seq<Base64Url.byte> -> Option<Value>, decodeAc: Option<Value> -> Option<T>)
    requires Separator !in header1 && Separator !in header2 && Separator !in payload
    requires tail1 == [] || tail1[0] == Separator
    requires tail2 == [] || tail2[0] == Separator
    ensures DecodePayloadInsecurely(header1 + [Separator] + payload + tail1, parseJson, decodeAc)
         == DecodePayloadInsecurely(header2 + [Separator] + payload + tail2, parseJson, decodeAc)
  {
    PayloadSegmentOf(header1, payload, tail1);
    PayloadSegmentOf(header2, payload, tail2);
  }

  /**
   * A character outside the base64url alphabet anywhere in the payload part
   * (`=`, `+` and `/` included) stops the extractor at stage 2, whatever the
   * JSON parser would have said.
   */
  lemma ForeignCharRejected<T>(token: string, i: nat,
                               parseJson: seq<Base64Url.byte> -> Option<Value>, decodeAc: Option<Value> -> Option<T>)
    requires PayloadSegment(token).Some?
    requires i < |PayloadSegment(token).value| && !Base64Url.IsUrlSafeChar(PayloadSegment(token).value[i])
    ensures DecodePayloadInsecurely(token, parseJson, decodeAc) == Err(InvalidEncoding)
  {
    Base64Url.DecodeRejectsForeignChar(PayloadSegment(token).value, i, AllowTrailingBits);
  }

  /** A payload part whose length is 1 more than a multiple of 4 stops the extractor at stage 2. */
  lemma LengthOneModFourRejected<T>(token: string,
                                    parseJson: seq<Base64Url.byte> -> Option<Value>, decodeAc: Option<Value> -> Option<T>)
    requires PayloadSegment(token).Some? && |PayloadSegment(token).value| % 4 == 1
    ensures DecodePayloadInsecurely(token, parseJson, decodeAc) == Err(InvalidEncoding)
  {
    Base64Url.DecodeRejectsLengthOneModFour(PayloadSegment(token).value, AllowTrailingBits);
  }

  /**
   * Any byte string, base64url-encoded as the payload part, is handed to the
   * claims parser exactly; a token of two parts is enough.
   */
  lemma EncodedPayloadReachesParser<T>(header: string, bytes: seq<Base64Url.byte>, tail: string,
                                       parseJson: seq<Base64Url.byte> -> Option<Value>, decodeAc: Option<Value> -> Option<T>)
    requires Separator !in header
    requires tail == [] || tail[0] == Separator
    ensures DecodePayloadInsecurely(header + [Separator] + Base64Url.Encode(bytes) + tail, parseJson, decodeAc)
         == ParseClaims(bytes, parseJson, decodeAc)
  {
    var payload := Base64Url.Encode(bytes);
    assert forall k | 0 <= k < |payload| :: payload[k] != Separator;
    PayloadSegmentOf(header, payload, tail);
    Base64Url.DecodeEncode(bytes, AllowTrailingBits);
  }

  /**
   * A token whose payload is a JSON object carrying a claims record yields
   * that record: the members may come in any order and other claims may sit
   * among them, whatever the timestamps say (an expired or not-yet-valid
   * token included) and whatever the first and last parts hold: nothing is
   * validated.
   */
  lemma ExtractsEncodedClaims<T>(header: string, c: Claims<T>, bytes: seq<Base64Url.byte>, tail: string,
                                 members: seq<(string, Value)>, parseJson: seq<Base64Url.byte> -> Option<Value>,
                                 encodeAc: T -> Value, decodeAc: Option<Value> -> Option<T>)
    requires Separator !in header
    requires tail == [] || tail[0] == Separator
    requires parseJson(bytes) == Some(Object(members)) && CarriesRecord(members, c, encodeAc)
    requires decodeAc(Some(encodeAc(c.ac))) == Some(c.ac)
    ensures DecodePayloadInsecurely(header + [Separator] + Base64Url.Encode(bytes) + tail, parseJson, decodeAc) == Ok(c)
  {
    EncodedPayloadReachesParser(header, bytes, tail, parseJson, decodeAc);
    FromJsonCarried(members, c, encodeAc, decodeAc);
  }

  /** In particular, a token whose payload is the serialized record yields that record. */
  lemma ExtractsSerializedClaims<T>(header: string, c: Claims<T>, bytes: seq<Base64Url.byte>, tail: string,
                                    parseJson: seq<Base64Url.byte> -> Option<Value>,
                                    encodeAc: T -> Value, decodeAc: Option<Value> -> Option<T>)
    requires Separator !in header
    requires tail == [] || tail[0] == Separator
    requires parseJson(bytes) == Some(ToJson(c, encodeAc))
    requires decodeAc(Some(encodeAc(c.ac))) == Some(c.ac)
    ensures DecodePayloadInsecurely(header + [Separator] + Base64Url.Encode(bytes) + tail, parseJson, decodeAc) == Ok(c)
  {
    ExtractsEncodedClaims(header, c, bytes, tail, ToJson(c, encodeAc).members, parseJson, encodeAc, decodeAc);
  }
}
