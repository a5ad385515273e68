/** JSON Web Tokens (RFC 7519) as an abstract codec. A token is either the
    signed serialisation of a payload under a signing key, or an arbitrary
    string that is not such a serialisation. Decoding checks the signature
    first and then the `exp` claim: following section 4.1.4 of RFC 7519, a
    token is expired once `now >= exp`, both in integer seconds. */
module Jwt {

  /** The claims the service puts in a token: `sub`, `token_type`, `exp`. */
  datatype Payload = Payload(sub: string, tokenType: string, exp: int)

  /** The process-wide secret and algorithm name read from the environment. */
  datatype SigningKey = SigningKey(secret: string, algorithm: string)

  datatype Token =
    | Signed(payload: Payload, key: SigningKey)
    | Raw(text: string)

  datatype Decoded = Valid(claims: Payload) | ExpiredSignature | InvalidToken

  function Encode(p: Payload, key: SigningKey): (t: Token)
    ensures t.Signed?
  {
    Signed(p, key)
  }

  function Decode(t: Token, key: SigningKey, now: int): (d: Decoded)
    ensures d.Valid? ==> t == Encode(d.claims, key) && now < d.claims.exp
    ensures d.ExpiredSignature? ==> t.Signed? && t.key == key && t.payload.exp <= now
    ensures d.InvalidToken? <==> !(t.Signed? && t.key == key)
  {
    match t
    case Raw(_) => InvalidToken
    case Signed(p, k) =>
      if k != key then InvalidToken
      else if now >= p.exp then ExpiredSignature
      else Valid(p)
  }

  /** Decoding what was encoded under the same key gives the payload back
      before `exp` and reports expiry from `exp` on. */
  lemma DecodeEncode(p: Payload, key: SigningKey, now: int)
    ensures now < p.exp ==> Decode(Encode(p, key), key, now) == Valid(p)
    ensures p.exp <= now ==> Decode(Encode(p, key), key, now) == ExpiredSignature
  {
  }

  /** A token signed under another key never decodes, expired or not. */
  lemma DecodeOtherKey(p: Payload, key: SigningKey, other: SigningKey, now: int)
    requires key != other
    ensures Decode(Encode(p, key), other, now) == InvalidToken
  {
  }
}
