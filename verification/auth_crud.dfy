/** The token store and the user update of the token CRUD file. Issued
    tokens live in `user_tokens`, modelled as a sequence in insertion order;
    the wall clock is the parameter `now`. */
module AuthCrud {
  import opened Wrappers
  import opened Jwt
  import opened Models
  import opened AuthSchemas
  import Middleware
  import UserCrud
  import Seqs

  datatype StoreError = DuplicateRefreshToken | UnknownUser

  /** `create_user_token`: appends one record with the given fields, not yet
      revoked. The commit fails when the unique `refresh_token` column
      already holds the token, or when `user_id` names no row of `users`
      (the foreign key). A repeated token is reported first, as the unique
      index is checked while the row is inserted and the foreign key after. */
  function CreateUserToken(
    users: seq<User>, tokens: seq<UserToken>, userId: nat, accessToken: Token, refreshToken: Token,
    deviceInfo: string, ipAddress: string, accessExpires: int, refreshExpires: int): (r: Result<(seq<UserToken>, UserToken), StoreError>)
    ensures r.Failure? <==> ((exists i :: 0 <= i < |tokens| && tokens[i].refreshToken == refreshToken)
      || (forall j :: 0 <= j < |users| ==> users[j].id != userId))
    ensures r == Failure(DuplicateRefreshToken) <==> exists i :: 0 <= i < |tokens| && tokens[i].refreshToken == refreshToken
    ensures r.Success? ==> r.value.0 == tokens + [r.value.1]
    ensures r.Success? ==> var t := r.value.1;
      && t.userId == userId && t.accessToken == accessToken && t.refreshToken == refreshToken
      && t.deviceInfo == deviceInfo && t.ipAddress == ipAddress
      && t.accessTokenExpires == accessExpires && t.refreshTokenExpires == refreshExpires
      && !t.revoked && t.revokedAt.None?
    ensures r.Success? && RefreshTokensUnique(tokens) ==> RefreshTokensUnique(r.value.0)
  {
    if exists i :: 0 <= i < |tokens| && tokens[i].refreshToken == refreshToken then
      Failure(DuplicateRefreshToken)
    else if UserCrud.FindById(users, userId).None? then
      Failure(UnknownUser)
    else
      var t := NewUserToken(userId, accessToken, refreshToken, deviceInfo, ipAddress, accessExpires, refreshExpires);
      Success((tokens + [t], t))
  }

  function RevokeOne(t: UserToken, refreshToken: Token, now: int): UserToken {
    if t.refreshToken == refreshToken then t.(revoked := true, revokedAt := Some(now)) else t
  }

  /** `revoke_token`: one conditional update over every record carrying the
      refresh token. */
  function RevokeToken(tokens: seq<UserToken>, refreshToken: Token, now: int): (r: seq<UserToken>)
    ensures |r| == |tokens|
    ensures forall i :: 0 <= i < |tokens| && tokens[i].refreshToken == refreshToken ==>
      r[i].revoked && r[i].revokedAt == Some(now)
    ensures forall i :: 0 <= i < |tokens| ==>
      r[i].(revoked := tokens[i].revoked, revokedAt := tokens[i].revokedAt) == tokens[i]
    ensures forall i :: 0 <= i < |tokens| && tokens[i].refreshToken != refreshToken ==> r[i] == tokens[i]
  {
    seq(|tokens|, i requires 0 <= i < |tokens| => RevokeOne(tokens[i], refreshToken, now))
  }

  /** Revoking a token no record carries changes nothing. */
  lemma RevokeUnknownIsNoOp(tokens: seq<UserToken>, refreshToken: Token, now: int)
    requires forall i :: 0 <= i < |tokens| ==> tokens[i].refreshToken != refreshToken
    ensures RevokeToken(tokens, refreshToken, now) == tokens
  {
  }

  /** Revoking again at a later time is revoking once at that time: the flags
      are those of a single revocation, only `revoked_at` moves. */
  lemma RevokeTwice(tokens: seq<UserToken>, refreshToken: Token, first: int, second: int)
    ensures RevokeToken(RevokeToken(tokens, refreshToken, first), refreshToken, second)
         == RevokeToken(tokens, refreshToken, second)
    ensures forall i :: 0 <= i < |tokens| ==>
      RevokeToken(RevokeToken(tokens, refreshToken, first), refreshToken, second)[i].revoked
      == RevokeToken(tokens, refreshToken, first)[i].revoked
  {
    var once := RevokeToken(tokens, refreshToken, first);
    var twice := RevokeToken(once, refreshToken, second);
    var direct := RevokeToken(tokens, refreshToken, second);
    forall i | 0 <= i < |tokens|
      ensures twice[i] == direct[i]
    {
      assert once[i].refreshToken == tokens[i].refreshToken;
    }
  }

  /** The filter of `get_active_tokens`. */
  predicate IsActive(t: UserToken, userId: nat, now: int) {
    t.userId == userId && !t.revoked && t.refreshTokenExpires > now
  }

  /** `get_active_tokens`: the user's records that are neither revoked nor
      past their refresh expiry, in store order. */
  function GetActiveTokens(tokens: seq<UserToken>, userId: nat, now: int): (r: seq<UserToken>)
    ensures forall i :: 0 <= i < |r| ==> r[i] in tokens && IsActive(r[i], userId, now)
    ensures forall i :: 0 <= i < |tokens| && IsActive(tokens[i], userId, now) ==> tokens[i] in r
    ensures Seqs.IsSubsequence(r, tokens)
    ensures forall t :: multiset(r)[t] == if IsActive(t, userId, now) then multiset(tokens)[t] else 0
  {
    Seqs.Filter(tokens, (t: UserToken) => IsActive(t, userId, now))
  }

  /** After a revocation no active-token query lists the revoked token. */
  lemma RevokedNeverActive(tokens: seq<UserToken>, refreshToken: Token, revokedAt: int, userId: nat, now: int)
    ensures forall i :: 0 <= i < |GetActiveTokens(RevokeToken(tokens, refreshToken, revokedAt), userId, now)| ==>
      GetActiveTokens(RevokeToken(tokens, refreshToken, revokedAt), userId, now)[i].refreshToken != refreshToken
  {
    var after := RevokeToken(tokens, refreshToken, revokedAt);
    var active := GetActiveTokens(after, userId, now);
    forall i | 0 <= i < |active|
      ensures active[i].refreshToken != refreshToken
    {
      var j :| 0 <= j < |after| && after[j] == active[i];
      assert after[j].refreshToken == tokens[j].refreshToken;
    }
  }

  /** Revoking one refresh token leaves the user's other sessions active. */
  lemma RevokeKeepsOtherSessions(tokens: seq<UserToken>, refreshToken: Token, revokedAt: int, userId: nat, now: int, t: UserToken)
    requires t in GetActiveTokens(tokens, userId, now)
    requires t.refreshToken != refreshToken
    ensures t in GetActiveTokens(RevokeToken(tokens, refreshToken, revokedAt), userId, now)
  {
    var after := RevokeToken(tokens, refreshToken, revokedAt);
    var j :| 0 <= j < |tokens| && tokens[j] == t;
    assert after[j] == t;
  }

  /** A freshly stored token whose refresh expiry is ahead is listed last
      among the user's active tokens. */
  lemma CreatedTokenIsActive(
    users: seq<User>, tokens: seq<UserToken>, userId: nat, accessToken: Token, refreshToken: Token,
    deviceInfo: string, ipAddress: string, accessExpires: int, refreshExpires: int, now: int)
    requires CreateUserToken(users, tokens, userId, accessToken, refreshToken, deviceInfo, ipAddress, accessExpires, refreshExpires).Success?
    requires now < refreshExpires
    ensures var (after, t) := CreateUserToken(users, tokens, userId, accessToken, refreshToken, deviceInfo, ipAddress, accessExpires, refreshExpires).value;
      GetActiveTokens(after, userId, now) == GetActiveTokens(tokens, userId, now) + [t]
  {
    var (after, t) := CreateUserToken(users, tokens, userId, accessToken, refreshToken, deviceInfo, ipAddress, accessExpires, refreshExpires).value;
    FilterAppend(tokens, t, (x: UserToken) => IsActive(x, userId, now));
  }

  lemma {:induction false} FilterAppend(s: seq<UserToken>, x: UserToken, p: UserToken -> bool)
    requires p(x)
    ensures Seqs.Filter(s + [x], p) == Seqs.Filter(s, p) + [x]
  {
    if |s| == 0 {
      assert s + [x] == [x];
      assert [x][1..] == [];
    } else {
      assert (s + [x])[1..] == s[1..] + [x];
      FilterAppend(s[1..], x, p);
    }
  }

  /** The keys `user_update.dict(exclude_unset=True)` yields. */
  function UpdateData(u: UserUpdate): (data: map<string, Option<string>>)
    ensures "email" in data <==> u.email.Set?
    ensures "new_password" in data <==> u.newPassword.Set?
    ensures "current_password" in data <==> u.currentPassword.Set?
    ensures data.Keys <= {"email", "current_password", "new_password"}
    ensures u.email.Set? ==> data["email"] == u.email.value
    ensures u.currentPassword.Set? ==> data["current_password"] == u.currentPassword.value
    ensures u.newPassword.Set? ==> data["new_password"] == u.newPassword.value
  {
    var withEmail: map<string, Option<string>> := if u.email.Set? then map["email" := u.email.value] else map[];
    var withCurrent := if u.currentPassword.Set? then withEmail["current_password" := u.currentPassword.value] else withEmail;
    if u.newPassword.Set? then withCurrent["new_password" := u.newPassword.value] else withCurrent
  }

  /** The `password` key, when present, is replaced by its hash under
      `hashed_password` before any attribute is written; every other key is
      kept. Hashing a null password raises, which is `None` here. */
  function HashPasswordKey(data: map<string, Option<string>>, h: Middleware.Hasher): (r: Option<map<string, Option<string>>>)
    ensures r.None? <==> "password" in data && data["password"].None?
    ensures "password" !in data ==> r == Some(data)
    ensures r.Some? && "password" in data ==>
      && r.value.Keys == data.Keys - {"password"} + {"hashed_password"}
      && r.value["hashed_password"] == Some(h.hash(data["password"].value))
      && forall k :: k in data && k != "password" && k != "hashed_password" ==> r.value[k] == data[k]
  {
    if "password" !in data then Some(data)
    else if data["password"].None? then None
    else Some((data - {"password"})["hashed_password" := Some(Middleware.GetPasswordHash(h, data["password"].value))])
  }

  datatype UpdateOutcome =
    | NoSuchUser
    | Updated(users: seq<User>, user: User)
    | DuplicateEmail

  /** Writing one key of the update data with `setattr`: only `email` and
      `hashed_password` are persisted columns among the keys that reach here. */
  function SetAttribute(u: User, key: string, value: Option<string>): User {
    if key == "email" then u.(email := value)
    else if key == "hashed_password" && value.Some? then u.(password := value.value)
    else u
  }

  /** The `setattr` of one key of the loop, when the data carries it. */
  function SetFrom(u: User, data: map<string, Option<string>>, key: string): User {
    if key in data then SetAttribute(u, key, data[key]) else u
  }

  /** `update_user`. A `password` key would be replaced by its hash under
      `hashed_password`, but the update form has no such key, so the stored
      password never changes here. A new email already used by another row
      is refused by the unique column. */
  function UpdateUser(users: seq<User>, name: string, update: UserUpdate, h: Middleware.Hasher): (r: UpdateOutcome)
    ensures r == NoSuchUser <==> forall j :: 0 <= j < |users| ==> users[j].username != name
    ensures r.Updated? ==> |r.users| == |users| && exists i :: (UserCrud.IsFirstNamed(users, name, i)
      && r.users[i] == r.user
      && r.user == users[i].(email := if update.email.Set? then update.email.value else users[i].email)
      && forall j :: 0 <= j < |users| && j != i ==> r.users[j] == users[j])
    ensures r == DuplicateEmail <==> update.email.Set? && update.email.value.Some? && exists i, j :: (UserCrud.IsFirstNamed(users, name, i)
      && 0 <= j < |users| && j != i && users[j].email == update.email.value)
  {
    match UserCrud.FindByUsername(users, name)
    case None => NoSuchUser
    case Some(i) =>
      var hashed := HashPasswordKey(UpdateData(update), h);
      assert hashed.Some?;
      var data' := hashed.value;
      var u := users[i];
      var u1 := SetFrom(u, data', "email");
      var u2 := SetFrom(u1, data', "hashed_password");
      if "email" in data' && u2.email.Some? && exists j :: 0 <= j < |users| && j != i && users[j].email == u2.email then DuplicateEmail
      else Updated(users[i := u2], u2)
  }

  /** Through the update form, neither the stored password nor any column
      other than `email` ever changes. */
  lemma UpdateUserKeepsPassword(users: seq<User>, name: string, update: UserUpdate, h: Middleware.Hasher)
    requires UpdateUser(users, name, update, h).Updated?
    ensures var r := UpdateUser(users, name, update, h);
      exists i :: 0 <= i < |users| && users[i].username == name
        && r.user.password == users[i].password
        && r.user.(email := users[i].email) == users[i]
  {
  }

  /** An update that sets nothing leaves the table as it was. */
  lemma EmptyUpdateIsNoOp(users: seq<User>, name: string, h: Middleware.Hasher)
    requires exists j :: 0 <= j < |users| && users[j].username == name
    ensures UpdateUser(users, name, UserUpdate(Unset, Unset, Unset), h) == Updated(users, UserCrud.GetUser(users, name).value)
  {
    var i := UserCrud.FindByUsername(users, name).value;
    var r := UpdateUser(users, name, UserUpdate(Unset, Unset, Unset), h);
    assert users[i := users[i]] == users;
    var k :| UserCrud.IsFirstNamed(users, name, k) && users[k] == UserCrud.GetUser(users, name).value;
    UserCrud.FirstNamedUnique(users, name, i, k);
  }

  /** An accepted update keeps every uniqueness constraint of the table. */
  lemma UpdateUserKeepsTableValid(users: seq<User>, name: string, update: UserUpdate, h: Middleware.Hasher)
    requires UsersValid(users)
    requires UpdateUser(users, name, update, h).Updated?
    ensures UsersValid(UpdateUser(users, name, update, h).users)
  {
    var r := UpdateUser(users, name, update, h);
    var i := UserCrud.FindByUsername(users, name).value;
    var after := r.users;
    assert after == users[i := r.user];
    assert forall j :: 0 <= j < |users| ==> after[j].id == users[j].id && after[j].username == users[j].username;
    forall a, b | 0 <= a < b < |after| && after[a].email.Some?
      ensures after[a].email != after[b].email
    {
      if a != i && b != i {
        assert after[a] == users[a] && after[b] == users[b];
      }
    }
  }
}
