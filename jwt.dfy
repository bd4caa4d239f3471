/** A signed JWT (RFC 7519) in JWS compact serialization (RFC 7515). The
    HMAC is kept symbolic: a genuine signature is the term naming the key,
    the protected header and the claim set it was computed over, so that a
    signature verifies under a key exactly when it was made with that key
    over that very header and claim set. That treats HMAC as a perfect MAC:
    distinct keys and distinct claim sets never give the same tag. */
module Jwt {
  import opened Wrappers

  /** The JWS `alg` header parameter of a parsed token. `Other` stands for
      the JWS algorithms of the other families (RSA, ECDSA, EdDSA); an `alg`
      of `none` names no JWS algorithm, so such a token does not parse and is
      `Unparseable`. */
  datatype Algorithm = HS256 | HS384 | HS512 | Other(name: string) {
    /** The algorithms an HMAC verifier accepts (section 3.2 of RFC 7518). */
    predicate IsHmac() {
      !Other?
    }
  }

  datatype Header = Header(alg: Algorithm)

  /** The claim set. Timestamps are NumericDate values (whole seconds since
      the epoch, section 2 of RFC 7519). `exp` and `jti` may be absent from
      a presented token. */
  datatype Claims = Claims(
    sub: string,
    iss: string,
    iat: int,
    exp: Option<int>,
    jti: Option<string>,
    scope: string)

  /** A genuine MAC, or any other byte string a client may present. */
  datatype Signature = Mac(key: string, header: Header, claims: Claims) | Bytes(value: seq<bv8>)

  datatype Jws = Jws(header: Header, claims: Claims, signature: Signature)

  /** A presented token: either it parses as a signed JWT with a claim set,
      or parsing throws. */
  datatype CompactToken = Unparseable(text: string) | Parsed(jws: Jws)

  const MillisPerSecond := 1000

  function Sign(key: string, header: Header, claims: Claims): Signature {
    Mac(key, header, claims)
  }

  /** The signature is the MAC of the header and claim set under `key`. */
  predicate SignatureValid(key: string, jws: Jws) {
    jws.signature == Sign(key, jws.header, jws.claims)
  }

  /** A java.util.Date (milliseconds) written as a NumericDate: whole seconds,
      the fraction dropped. */
  function ToNumericDate(millis: nat): nat {
    millis / MillisPerSecond
  }

  /** A NumericDate read back as a java.util.Date. */
  function ToMillis(seconds: int): int {
    seconds * MillisPerSecond
  }

  /** Writing a date and reading it back loses less than one second. */
  lemma NumericDateRoundTrip(millis: nat)
    ensures millis - MillisPerSecond < ToMillis(ToNumericDate(millis)) <= millis
  {
  }
}
