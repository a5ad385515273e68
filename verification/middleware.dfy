/** The token layer: minting access and refresh tokens for a user id, the
    password hasher, and the request-time classification of a presented
    token into "accepted", "Token expired" and "Token is not valid". */
module Middleware {
  import opened Wrappers
  import opened Text
  import opened Jwt
  import opened Http
  import AuthSchemas

  const SecondsPerMinute := 60
  const SecondsPerDay := 86400
  const AccessTokenExpireMinutes := 1
  const RefreshTokenExpireDays := 7
  /** The lifetimes used when no delta (or a zero delta) is passed. */
  const DefaultAccessLifetime := 15 * SecondsPerMinute
  const DefaultRefreshLifetime := 7 * SecondsPerDay

  /** `expires_delta or timedelta(...)`: a missing delta and a zero delta are
      both falsy and fall back to the default. */
  function Lifetime(delta: Option<int>, default: int): int {
    if delta.None? || delta.value == 0 then default else delta.value
  }

  function MakeToken(userId: nat, kind: AuthSchemas.TokenType, lifetime: int, now: int, key: SigningKey): (t: Token)
    ensures t.Signed? && t.key == key
    ensures ParseNat(t.payload.sub) == Some(userId)
    ensures t.payload.tokenType == kind.Name()
    ensures t.payload.exp == now + lifetime
  {
    ParseNatToString(userId);
    Encode(Payload(NatToString(userId), kind.Name(), now + lifetime), key)
  }

  /** `AuthService.create_access_token`. */
  function CreateAccessToken(userId: nat, delta: Option<int>, now: int, key: SigningKey): (t: Token)
    ensures t.Signed? && t.key == key
    ensures ParseNat(t.payload.sub) == Some(userId)
    ensures t.payload.tokenType == "access"
    ensures (delta.None? || delta == Some(0)) ==> t.payload.exp == now + 900
    ensures delta.Some? && delta.value != 0 ==> t.payload.exp == now + delta.value
  {
    MakeToken(userId, AuthSchemas.Access, Lifetime(delta, DefaultAccessLifetime), now, key)
  }

  /** `AuthService.create_refresh_token`. */
  function CreateRefreshToken(userId: nat, delta: Option<int>, now: int, key: SigningKey): (t: Token)
    ensures t.Signed? && t.key == key
    ensures ParseNat(t.payload.sub) == Some(userId)
    ensures t.payload.tokenType == "refresh"
    ensures (delta.None? || delta == Some(0)) ==> t.payload.exp == now + 604800
    ensures delta.Some? && delta.value != 0 ==> t.payload.exp == now + delta.value
  {
    MakeToken(userId, AuthSchemas.Refresh, Lifetime(delta, DefaultRefreshLifetime), now, key)
  }

  datatype TokenBundle = TokenBundle(
    accessToken: Token,
    refreshToken: Token,
    accessExpires: int,
    refreshExpires: int)

  /** `AuthService.create_tokens`, with one reading of the clock for the
      whole call. */
  function CreateTokens(userId: nat, now: int, key: SigningKey): (r: TokenBundle)
    ensures r.accessExpires == now + 60 && r.refreshExpires == now + 604800
    ensures r.accessExpires < r.refreshExpires
    ensures r.accessToken.Signed? && r.accessToken.payload.exp == r.accessExpires
    ensures r.refreshToken.Signed? && r.refreshToken.payload.exp == r.refreshExpires
    ensures r.accessToken.payload.tokenType == "access" && r.refreshToken.payload.tokenType == "refresh"
    ensures ParseNat(r.accessToken.payload.sub) == Some(userId) && ParseNat(r.refreshToken.payload.sub) == Some(userId)
    ensures r.accessToken != r.refreshToken
  {
    var accessLifetime := AccessTokenExpireMinutes * SecondsPerMinute;
    var refreshLifetime := RefreshTokenExpireDays * SecondsPerDay;
    TokenBundle(
      CreateAccessToken(userId, Some(accessLifetime), now, key),
      CreateRefreshToken(userId, Some(refreshLifetime), now, key),
      now + accessLifetime,
      now + refreshLifetime)
  }

  /** The password hasher (bcrypt behind passlib), left uninterpreted. */
  datatype Hasher = Hasher(hash: string -> string, verify: (string, string) -> bool)

  /** What any correct hasher guarantees: a password verifies against its own hash. */
  ghost predicate SoundHasher(h: Hasher) {
    forall p :: h.verify(p, h.hash(p))
  }

  function GetPasswordHash(h: Hasher, password: string): string {
    h.hash(password)
  }

  function VerifyPassword(h: Hasher, plain: string, hashed: string): bool {
    h.verify(plain, hashed)
  }

  /** What the dependency hands to a route: the three claims as decoded. */
  datatype Claims = Claims(userId: string, tokenType: string, exp: int)

  const NoTokenDetail := "No auth token, access denied"
  const ExpiredDetail := "Token expired"
  const InvalidDetail := "Token is not valid , auth proccess faile!"

  /** `not x_auth_token`: nothing presented, or the empty string. */
  predicate NoTokenPresented(x: Option<Token>) {
    x.None? || x.value == Raw("")
  }

  /** `auth_middleware`: no kind check is made, so any correctly signed,
      unexpired token is accepted. */
  function AuthMiddleware(x: Option<Token>, key: SigningKey, now: int): (r: Result<Claims, HttpError>)
    ensures r.Failure? ==> r.error.status == 401
    ensures NoTokenPresented(x) ==> r == Failure(HttpError(401, NoTokenDetail))
    ensures r.Success? <==> x.Some? && x.value.Signed? && x.value.key == key && now < x.value.payload.exp
    ensures r.Success? ==> r.value == Claims(x.value.payload.sub, x.value.payload.tokenType, x.value.payload.exp)
    ensures r == Failure(HttpError(401, ExpiredDetail)) <==> x.Some? && x.value.Signed? && x.value.key == key && x.value.payload.exp <= now
    ensures r == Failure(HttpError(401, InvalidDetail)) <==> !NoTokenPresented(x) && !(x.value.Signed? && x.value.key == key)
  {
    if NoTokenPresented(x) then Failure(HttpError(Unauthorized, NoTokenDetail))
    else match Decode(x.value, key, now)
      case Valid(p) => Success(Claims(p.sub, p.tokenType, p.exp))
      case ExpiredSignature => Failure(HttpError(Unauthorized, ExpiredDetail))
      case InvalidToken => Failure(HttpError(Unauthorized, InvalidDetail))
  }

  /** The three rejections are told apart by their detail text. */
  lemma RejectionsDistinct()
    ensures NoTokenDetail != ExpiredDetail
    ensures NoTokenDetail != InvalidDetail
    ensures ExpiredDetail != InvalidDetail
  {
    assert NoTokenDetail[0] != ExpiredDetail[0];
    assert NoTokenDetail[0] != InvalidDetail[0];
    assert ExpiredDetail[6] != InvalidDetail[6];
  }

  /** An access token minted by `create_tokens` is accepted for its first 60
      seconds, yielding the user id it was minted for, and reported expired
      from then on. */
  lemma IssuedAccessToken(userId: nat, issuedAt: int, key: SigningKey, at: int)
    ensures var t := CreateTokens(userId, issuedAt, key).accessToken;
      && (at < issuedAt + 60 ==>
           && AuthMiddleware(Some(t), key, at).Success?
           && ParseNat(AuthMiddleware(Some(t), key, at).value.userId) == Some(userId)
           && AuthMiddleware(Some(t), key, at).value.tokenType == "access"
           && AuthMiddleware(Some(t), key, at).value.exp == issuedAt + 60)
      && (issuedAt + 60 <= at ==> AuthMiddleware(Some(t), key, at) == Failure(HttpError(401, ExpiredDetail)))
  {
  }

  /** No kind check: the refresh token of the pair passes the same gate for
      seven days, reported with `token_type` "refresh". */
  lemma RefreshTokenAcceptedAsBearer(userId: nat, issuedAt: int, key: SigningKey, at: int)
    requires at < issuedAt + 604800
    ensures var t := CreateTokens(userId, issuedAt, key).refreshToken;
      && AuthMiddleware(Some(t), key, at).Success?
      && AuthMiddleware(Some(t), key, at).value.tokenType == "refresh"
      && ParseNat(AuthMiddleware(Some(t), key, at).value.userId) == Some(userId)
  {
  }

  /** A token signed under another key is "not valid" even after its expiry:
      the signature is checked before the expiry. */
  lemma ForeignTokenInvalid(p: Payload, signer: SigningKey, key: SigningKey, now: int)
    requires signer != key
    ensures AuthMiddleware(Some(Encode(p, signer)), key, now) == Failure(HttpError(401, InvalidDetail))
  {
  }
}
