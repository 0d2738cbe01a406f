/**
 * Claim extraction from a compact token: `GetNameFromToken` and
 * `GetExpirationFromToken` (pkg/helpers/helpers.go).
 *
 * The token is split on '.' and must have exactly three segments (the compact
 * serialization of section 7.1 of RFC 7515); the middle one is decoded with
 * `base64.RawStdEncoding` and the result unmarshalled as JSON into the claims.
 * The signature segment is never checked. JSON unmarshalling is not modelled:
 * the caller supplies it as a partial function to the claims.
 */
module Tokens {
  import opened Common
  import Base64

  /** A Go `int64`. */
  type int64 = x: int | -0x8000_0000_0000_0000 <= x < 0x8000_0000_0000_0000

  /** The struct both extractors unmarshal into: `name` and `exp` (Unix seconds). */
  datatype Claims = Claims(name: string, exp: int64)

  /**
   * `json.Unmarshal(payload, u)`: `None` for an error, otherwise the claims,
   * with absent fields at their zero values.
   */
  type ClaimsDecoder = seq<byte> -> Option<Claims>

  /** The errors the extractors return: `errors.New("invalid token")`, or the decoder's error. */
  datatype TokenError = InvalidToken | PayloadDecodeError | ClaimsDecodeError

  /** The number of occurrences of `c` in `s`. */
  function Count(s: string, c: char): nat
  {
    if s == [] then 0 else (if s[0] == c then 1 else 0) + Count(s[1..], c)
  }

  /** `strings.Split(s, string(sep))`: the pieces between the separators, one more than their number. */
  function Split(s: string, sep: char): (parts: seq<string>)
    ensures |parts| == Count(s, sep) + 1
    ensures forall k :: 0 <= k < |parts| ==> sep !in parts[k]
  {
    if s == [] then [""]
    else
      var rest := Split(s[1..], sep);
      if s[0] == sep then [""] + rest
      else [[s[0]] + rest[0]] + rest[1..]
  }

  /** `strings.Join(parts, string(sep))`, the inverse of `Split`. */
  function Join(parts: seq<string>, sep: char): string
    requires |parts| >= 1
  {
    if |parts| == 1 then parts[0] else parts[0] + [sep] + Join(parts[1..], sep)
  }

  /** Splitting, then joining with the same separator, gives the string back. */
  lemma {:induction false} JoinSplit(s: string, sep: char)
    ensures Join(Split(s, sep), sep) == s
  {
    if s != [] {
      JoinSplit(s[1..], sep);
      var rest := Split(s[1..], sep);
      if s[0] != sep && |rest| > 1 {
        assert Split(s, sep)[1..] == rest[1..];
      }
    }
  }

  /** Joining pieces free of the separator, then splitting, gives the pieces back. */
  lemma {:induction false} SplitJoin(parts: seq<string>, sep: char)
    requires |parts| >= 1
    requires forall k :: 0 <= k < |parts| ==> sep !in parts[k]
    ensures Split(Join(parts, sep), sep) == parts
  {
    if |parts| == 1 {
      SplitPrefix(parts[0], "", sep);
      assert parts[0] + "" == parts[0];
    } else {
      SplitJoin(parts[1..], sep);
      var tail := [sep] + Join(parts[1..], sep);
      assert tail[1..] == Join(parts[1..], sep);
      assert Split(tail, sep) == [""] + parts[1..];
      SplitPrefix(parts[0], tail, sep);
      assert parts[0] + [sep] + Join(parts[1..], sep) == parts[0] + tail;
      assert parts[0] + "" == parts[0];
    }
  }

  /** A piece free of the separator joins the first split part of what follows it. */
  lemma {:induction false} SplitPrefix(piece: string, tail: string, sep: char)
    requires sep !in piece
    ensures Split(piece + tail, sep) == [piece + Split(tail, sep)[0]] + Split(tail, sep)[1..]
  {
    if piece == [] {
      var parts := Split(tail, sep);
      assert piece + tail == tail && piece + parts[0] == parts[0];
      assert parts == [parts[0]] + parts[1..];
    } else {
      SplitPrefix(piece[1..], tail, sep);
      assert (piece + tail)[1..] == piece[1..] + tail;
      assert [piece[0]] + (piece[1..] + Split(tail, sep)[0]) == piece + Split(tail, sep)[0];
    }
  }

  /**
   * The parse both extractors run: split on '.', demand three segments,
   * decode the middle one, unmarshal it.
   */
  function ParseClaims(unmarshal: ClaimsDecoder, token: string): (r: Result<Claims, TokenError>)
    ensures r == Failure(InvalidToken) <==> Count(token, '.') != 2
  {
    var tt := Split(token, '.');
    if |tt| != 3 then Failure(InvalidToken)
    else match Base64.DecodeString(tt[1])
      case None => Failure(PayloadDecodeError)
      case Some(payload) =>
        match unmarshal(payload)
        case None => Failure(ClaimsDecodeError)
        case Some(claims) => Success(claims)
  }

  /** `GetNameFromToken`: the `name` claim. */
  function GetNameFromToken(unmarshal: ClaimsDecoder, token: string): (r: Result<string, TokenError>)
    ensures r == Failure(InvalidToken) <==> Count(token, '.') != 2
  {
    match ParseClaims(unmarshal, token)
    case Success(claims) => Success(claims.name)
    case Failure(e) => Failure(e)
  }

  /** `GetExpirationFromToken`: the `exp` claim; the instant `time.Unix(exp, 0)` is given by its Unix seconds. */
  function GetExpirationFromToken(unmarshal: ClaimsDecoder, token: string): (r: Result<int64, TokenError>)
    ensures r == Failure(InvalidToken) <==> Count(token, '.') != 2
  {
    match ParseClaims(unmarshal, token)
    case Success(claims) => Success(claims.exp)
    case Failure(e) => Failure(e)
  }

  /** The compact form `header.payload.signature`. */
  function Compact(header: string, payload: string, signature: string): string
  {
    header + "." + payload + "." + signature
  }

  /** Three segments free of '.' are exactly what splitting their compact form gives. */
  lemma SplitCompact(header: string, payload: string, signature: string)
    requires '.' !in header && '.' !in payload && '.' !in signature
    ensures Split(Compact(header, payload, signature), '.') == [header, payload, signature]
  {
    var parts := [header, payload, signature];
    assert Join(parts[2..], '.') == signature;
    assert Join(parts[1..], '.') == payload + "." + signature;
    assert Compact(header, payload, signature) == Join(parts, '.');
    SplitJoin(parts, '.');
  }

  /** Both extractors fail with "invalid token" exactly when the token does not have three segments. */
  lemma InvalidTokenIffNotThreeSegments(unmarshal: ClaimsDecoder, token: string)
    ensures GetNameFromToken(unmarshal, token) == Failure(InvalidToken) <==> |Split(token, '.')| != 3
    ensures GetExpirationFromToken(unmarshal, token) == Failure(InvalidToken) <==> |Split(token, '.')| != 3
  {
  }

  /** The two extractors succeed together and fail together, with the same error. */
  lemma ExtractorsAgree(unmarshal: ClaimsDecoder, token: string)
    ensures GetNameFromToken(unmarshal, token).Success? <==> GetExpirationFromToken(unmarshal, token).Success?
    ensures GetNameFromToken(unmarshal, token).Failure? ==>
      GetNameFromToken(unmarshal, token).error == GetExpirationFromToken(unmarshal, token).error
  {
  }

  /**
   * A token of three '.'-free segments whose middle segment decodes to bytes
   * that unmarshal to `claims` yields their name and their expiry, whatever
   * its header and signature.
   */
  lemma ExtractFromSegment(unmarshal: ClaimsDecoder, header: string, segment: string, signature: string,
                           payload: seq<byte>, claims: Claims)
    requires '.' !in header && '.' !in segment && '.' !in signature
    requires Base64.DecodeString(segment) == Some(payload) && unmarshal(payload) == Some(claims)
    ensures GetNameFromToken(unmarshal, Compact(header, segment, signature)) == Success(claims.name)
    ensures GetExpirationFromToken(unmarshal, Compact(header, segment, signature)) == Success(claims.exp)
  {
    SplitCompact(header, segment, signature);
  }

  /** In particular, a payload segment that is the unpadded standard base64 of the claims bytes. */
  lemma ExtractFromCompact(unmarshal: ClaimsDecoder, header: string, payload: seq<byte>, signature: string, claims: Claims)
    requires '.' !in header && '.' !in signature
    requires unmarshal(payload) == Some(claims)
    ensures GetNameFromToken(unmarshal, Compact(header, Base64.EncodeToString(payload), signature)) == Success(claims.name)
    ensures GetExpirationFromToken(unmarshal, Compact(header, Base64.EncodeToString(payload), signature)) == Success(claims.exp)
  {
    var segment := Base64.EncodeToString(payload);
    assert '.' !in segment by {
      forall i | 0 <= i < |segment| ensures segment[i] != '.' {
        assert Base64.SextetOf(segment[i]).Some?;
      }
    }
    Base64.DecodeEncode(payload);
    ExtractFromSegment(unmarshal, header, segment, signature, payload, claims);
  }

  /** A token of three segments fails with the base64 error exactly when its middle segment does not decode. */
  lemma PayloadDecodeErrorIff(unmarshal: ClaimsDecoder, header: string, segment: string, signature: string)
    requires '.' !in header && '.' !in segment && '.' !in signature
    ensures GetNameFromToken(unmarshal, Compact(header, segment, signature)) == Failure(PayloadDecodeError)
            <==> Base64.DecodeString(segment).None?
    ensures GetExpirationFromToken(unmarshal, Compact(header, segment, signature)) == Failure(PayloadDecodeError)
            <==> Base64.DecodeString(segment).None?
  {
    SplitCompact(header, segment, signature);
  }

  /**
   * A token of three segments fails with the JSON error exactly when its
   * middle segment decodes but the bytes do not unmarshal.
   */
  lemma ClaimsDecodeErrorIff(unmarshal: ClaimsDecoder, header: string, segment: string, signature: string)
    requires '.' !in header && '.' !in segment && '.' !in signature
    ensures GetNameFromToken(unmarshal, Compact(header, segment, signature)) == Failure(ClaimsDecodeError)
            <==> Base64.DecodeString(segment).Some? && unmarshal(Base64.DecodeString(segment).value).None?
    ensures GetExpirationFromToken(unmarshal, Compact(header, segment, signature)) == Failure(ClaimsDecodeError)
            <==> Base64.DecodeString(segment).Some? && unmarshal(Base64.DecodeString(segment).value).None?
  {
    SplitCompact(header, segment, signature);
  }

  /** The signature segment is never looked at: replacing it changes nothing. */
  lemma SignatureIgnored(unmarshal: ClaimsDecoder, header: string, payload: string, sig1: string, sig2: string)
    requires '.' !in header && '.' !in payload && '.' !in sig1 && '.' !in sig2
    ensures ParseClaims(unmarshal, Compact(header, payload, sig1)) == ParseClaims(unmarshal, Compact(header, payload, sig2))
  {
    SplitCompact(header, payload, sig1);
    SplitCompact(header, payload, sig2);
  }

  /**
   * The payload is decoded with the standard alphabet only: a payload segment
   * holding a URL-safe '-' or '_', or padding '=', fails to decode.
   */
  lemma UrlSafePayloadRejected(unmarshal: ClaimsDecoder, header: string, payload: string, signature: string, i: nat)
    requires '.' !in header && '.' !in payload && '.' !in signature
    requires i < |payload| && payload[i] in "-_="
    ensures GetNameFromToken(unmarshal, Compact(header, payload, signature)) == Failure(PayloadDecodeError)
    ensures GetExpirationFromToken(unmarshal, Compact(header, payload, signature)) == Failure(PayloadDecodeError)
  {
    SplitCompact(header, payload, signature);
    Base64.RejectsOutsideAlphabet(payload, i);
  }
}
