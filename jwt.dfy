/**
 * JSON Web Token parsing as done by `lib/jwt.ts`: the token must have the three-part
 * shape of the JWS compact serialisation (section 7.1 of RFC 7515), and only the
 * middle (payload) part is decoded. No signature is verified, although section 7.2 of
 * RFC 7519 requires validating the signature before the claims are trusted.
 */
module Jwt {
  import opened Wrappers
  import opened Strings
  import opened Json

  datatype JwtError =
    | InvalidJwt        // the token does not split into exactly three parts
    | MalformedPayload  // the payload part is not base64 of valid JSON

  /**
   * `parseJwt(token)`. `decodePayload` is the host codec chain
   * `JSON.parse(Buffer.from(part, "base64").toString("utf8"))`, with `None` for a
   * `JSON.parse` failure.
   */
  function ParseJwt(token: string, decodePayload: string -> Option<Json>): (r: Result<Json, JwtError>)
    ensures r == Failure(InvalidJwt) <==> |Split(token, '.')| != 3
    ensures r == Failure(MalformedPayload) <==>
      |Split(token, '.')| == 3 && decodePayload(Split(token, '.')[1]).None?
    ensures r.Success? ==> Some(r.value) == decodePayload(Split(token, '.')[1])
  {
    var parts := Split(token, '.');
    if |parts| != 3 then Failure(InvalidJwt)
    else
      match decodePayload(parts[1])
      case None => Failure(MalformedPayload)
      case Some(claims) => Success(claims)
  }

  /** The shape check accepts a token exactly when it holds two `.` characters. */
  lemma ShapeIffTwoDots(token: string, decodePayload: string -> Option<Json>)
    ensures ParseJwt(token, decodePayload) != Failure(InvalidJwt) <==> Count(token, '.') == 2
  {
    SplitCount(token, '.');
  }

  /**
   * The header and signature parts play no part in the result: any two tokens with
   * the same payload part parse alike, so no signature is checked.
   */
  lemma SignatureIgnored(header: string, payload: string, signature: string,
                         header': string, signature': string,
                         decodePayload: string -> Option<Json>)
    requires '.' !in header && '.' !in payload && '.' !in signature
    requires '.' !in header' && '.' !in signature'
    ensures ParseJwt(header + "." + payload + "." + signature, decodePayload)
         == ParseJwt(header' + "." + payload + "." + signature', decodePayload)
    ensures ParseJwt(header + "." + payload + "." + signature, decodePayload).Success?
        <==> decodePayload(payload).Some?
  {
    SplitsInThree(header, payload, signature);
    SplitsInThree(header', payload, signature');
  }

  lemma SplitsInThree(header: string, payload: string, signature: string)
    requires '.' !in header && '.' !in payload && '.' !in signature
    ensures Split(header + "." + payload + "." + signature, '.') == [header, payload, signature]
  {
    var parts := [header, payload, signature];
    assert Join(parts[2..], '.') == signature;
    assert Join(parts[1..], '.') == payload + "." + signature;
    assert Join(parts, '.') == header + "." + payload + "." + signature;
    SplitJoin(parts, '.');
  }
}
