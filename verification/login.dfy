/** The admin login route: look the user up by name, check the password,
    then either refuse with one uniform 401 or mint a token pair, store it on
    the user row together with the login time, and answer with a bearer
    token response. */
module Login {
  import opened Wrappers
  import opened Jwt
  import opened Http
  import opened Text
  import opened Models
  import opened AuthSchemas
  import Middleware
  import UserCrud

  const InvalidCredentialsDetail := "Invalid credentials"

  /** `expires_in`: the access lifetime in seconds. */
  const ExpiresIn := Middleware.AccessTokenExpireMinutes * 60

  /** Whether the login form's credentials are accepted. */
  predicate CredentialsAccepted(users: seq<User>, name: string, password: string, h: Middleware.Hasher) {
    var found := UserCrud.GetUser(users, name);
    found.Some? && Middleware.VerifyPassword(h, password, found.value.password)
  }

  function Login(users: seq<User>, name: string, password: string, h: Middleware.Hasher, key: SigningKey, now: int)
    : (r: Result<(seq<User>, TokenResponse), HttpError>)
    ensures r.Failure? <==> !CredentialsAccepted(users, name, password, h)
    ensures r.Failure? ==> r.error == HttpError(401, "Invalid credentials")
    ensures r.Success? ==> r.value.1.tokenType == "bearer" && r.value.1.expiresIn == 60
    ensures r.Success? ==> |r.value.0| == |users| && exists i :: (UserCrud.IsFirstNamed(users, name, i)
      && var pair := Middleware.CreateTokens(users[i].id, now, key);
      && r.value.1.accessToken == pair.accessToken
      && r.value.0[i] == users[i].(accessToken := Some(pair.accessToken), refreshToken := Some(pair.refreshToken), lastLogin := Some(now))
      && forall j :: 0 <= j < |users| && j != i ==> r.value.0[j] == users[j])
  {
    match UserCrud.FindByUsername(users, name)
    case None => Failure(HttpError(Unauthorized, InvalidCredentialsDetail))
    case Some(i) =>
      var admin := users[i];
      if !Middleware.VerifyPassword(h, password, admin.password) then
        Failure(HttpError(Unauthorized, InvalidCredentialsDetail))
      else
        var tokens := Middleware.CreateTokens(admin.id, now, key);
        var updated := admin.(accessToken := Some(tokens.accessToken), refreshToken := Some(tokens.refreshToken), lastLogin := Some(now));
        Success((users[i := updated], MakeTokenResponse(tokens.accessToken, ExpiresIn, Some("bearer"))))
  }

  /** An unknown name and a wrong password are answered identically. */
  lemma LoginRejectsUniformly(users: seq<User>, unknown: string, known: string, wrong: string, anyPassword: string,
                              h: Middleware.Hasher, key: SigningKey, now: int)
    requires forall j :: 0 <= j < |users| ==> users[j].username != unknown
    requires UserCrud.GetUser(users, known).Some?
    requires !h.verify(wrong, UserCrud.GetUser(users, known).value.password)
    ensures Login(users, unknown, anyPassword, h, key, now) == Login(users, known, wrong, h, key, now)
  {
  }

  /** The access token a login hands out authenticates its user for the next
      60 seconds. */
  lemma LoginThenAuthenticate(users: seq<User>, name: string, password: string, h: Middleware.Hasher, key: SigningKey, now: int, at: int)
    requires Login(users, name, password, h, key, now).Success?
    requires at < now + 60
    ensures var response := Login(users, name, password, h, key, now).value.1;
      var claims := Middleware.AuthMiddleware(Some(response.accessToken), key, at);
      && claims.Success?
      && ParseNat(claims.value.userId) == Some(UserCrud.GetUser(users, name).value.id)
      && claims.value.tokenType == "access"
  {
    var i :| UserCrud.IsFirstNamed(users, name, i)
      && Login(users, name, password, h, key, now).value.1.accessToken == Middleware.CreateTokens(users[i].id, now, key).accessToken;
    var k :| UserCrud.IsFirstNamed(users, name, k) && users[k] == UserCrud.GetUser(users, name).value;
    UserCrud.FirstNamedUnique(users, name, i, k);
  }

  /** `is_active` is never consulted: a soft-deleted user with the right
      password still logs in. */
  lemma InactiveUserCanLogIn(users: seq<User>, name: string, password: string, h: Middleware.Hasher, key: SigningKey, now: int)
    requires UserCrud.GetUser(users, name).Some?
    requires !UserCrud.GetUser(users, name).value.isActive
    requires h.verify(password, UserCrud.GetUser(users, name).value.password)
    ensures Login(users, name, password, h, key, now).Success?
  {
  }

  /** A successful login keeps every uniqueness constraint of the table. */
  lemma LoginKeepsTableValid(users: seq<User>, name: string, password: string, h: Middleware.Hasher, key: SigningKey, now: int)
    requires UsersValid(users)
    requires Login(users, name, password, h, key, now).Success?
    ensures UsersValid(Login(users, name, password, h, key, now).value.0)
  {
    var after := Login(users, name, password, h, key, now).value.0;
    var i :| UserCrud.IsFirstNamed(users, name, i)
      && after[i] == users[i].(accessToken := after[i].accessToken, refreshToken := after[i].refreshToken, lastLogin := after[i].lastLogin)
      && forall j :: 0 <= j < |users| && j != i ==> after[j] == users[j];
    assert forall j :: 0 <= j < |users| ==>
      after[j].id == users[j].id && after[j].username == users[j].username && after[j].email == users[j].email;
  }
}
