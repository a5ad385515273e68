/** The admin self-service routes: who am I, overwrite my profile, log out.
    The authenticated admin's id comes from the route's user dependency,
    which is not part of this model; it is a parameter here. Per user the
    session is a two-state machine: logged in while an access token is
    stored on the row, logged out once it is cleared. */
module Admin {
  import opened Wrappers
  import opened Jwt
  import opened Http
  import opened Models
  import Middleware
  import UserCrud
  import Login

  datatype Me = Me(userId: nat, username: string)

  const AuthNeededDetail := "Auth neededm, check credentials"
  const NotFoundOrLoggedOutDetail := "Admin not found! or logged out"

  /** `get_me`. */
  function GetMe(users: seq<User>, adminId: nat): (r: Result<Me, HttpError>)
    ensures r.Failure? <==> forall j :: 0 <= j < |users| ==> users[j].id != adminId
    ensures r.Failure? ==> r.error == HttpError(401, AuthNeededDetail)
    ensures r.Success? ==> exists i :: (UserCrud.IsFirstWithId(users, adminId, i)
      && r.value == Me(adminId, users[i].username))
  {
    match UserCrud.GetUserById(users, adminId)
    case None => Failure(HttpError(Unauthorized, AuthNeededDetail))
    case Some(u) => Success(Me(u.id, u.username))
  }

  /** The body of the admin update form. `passowrd` is spelled as in the
      form; no column has that name. */
  datatype AdminUpdate = AdminUpdate(
    username: string,
    passowrd: string,
    name: Option<string>,
    sid: string,
    lname: string,
    faName: string,
    phoneNumber: string,
    birthDate: int,
    status: bool,
    degree: string,
    universityId: int,
    departmentId: int,
    birthCity: string,
    major: string)

  /** Every field of the form written onto the row with `setattr`. */
  function ApplyAdminUpdate(u: User, f: AdminUpdate): (v: User)
    ensures v.username == f.username
    ensures v.profile.name == f.name && v.profile.sid == f.sid
    ensures v.profile.lname == f.lname && v.profile.faName == f.faName
    ensures v.profile.phoneNumber == f.phoneNumber && v.profile.birthDate == Some(f.birthDate)
    ensures v.profile.status == Some(f.status) && v.profile.degree == Some(f.degree)
    ensures v.profile.universityId == Some(f.universityId) && v.profile.departmentId == Some(f.departmentId)
    ensures v.profile.birthCity == Some(f.birthCity) && v.profile.major == Some(f.major)
    ensures v.profile.idNumber == u.profile.idNumber && v.profile.address == u.profile.address
    ensures v.id == u.id && v.password == u.password && v.roleId == u.roleId && v.email == u.email
    ensures v.accessToken == u.accessToken && v.refreshToken == u.refreshToken && v.isActive == u.isActive
    ensures v.tokenVersion == u.tokenVersion && v.lastLogin == u.lastLogin
  {
    u.(username := f.username,
       profile := u.profile.(
         name := f.name, sid := f.sid, lname := f.lname, faName := f.faName,
         phoneNumber := f.phoneNumber, birthDate := Some(f.birthDate), status := Some(f.status),
         degree := Some(f.degree), universityId := Some(f.universityId), departmentId := Some(f.departmentId),
         birthCity := Some(f.birthCity), major := Some(f.major)))
  }

  /** `update_current_admin`. With no row for the id the loop's `setattr` on
      `None` fails, and a username already held by another row fails the
      unique column; both end as a server error. */
  function UpdateCurrentAdmin(users: seq<User>, adminId: nat, f: AdminUpdate): (r: Result<(seq<User>, User), HttpError>)
    ensures r.Success? <==> exists i :: (UserCrud.IsFirstWithId(users, adminId, i)
      && forall j :: 0 <= j < |users| && j != i ==> users[j].username != f.username)
    ensures r.Failure? ==> r.error == HttpError(500, InternalErrorDetail)
    ensures (forall j :: 0 <= j < |users| ==> users[j].id != adminId) ==> r == Failure(HttpError(500, InternalErrorDetail))
    ensures r.Success? ==> |r.value.0| == |users| && exists i :: (UserCrud.IsFirstWithId(users, adminId, i)
      && r.value.1 == r.value.0[i]
      && r.value.1 == ApplyAdminUpdate(users[i], f)
      && forall j :: 0 <= j < |users| && j != i ==> r.value.0[j] == users[j])
    ensures r.Success? ==> forall j :: 0 <= j < |r.value.0| && r.value.0[j].id != adminId ==> r.value.0[j].username != f.username
  {
    match UserCrud.FindById(users, adminId)
    case None => Failure(HttpError(InternalServerError, InternalErrorDetail))
    case Some(i) =>
      if exists j :: 0 <= j < |users| && j != i && users[j].username == f.username then
        Failure(HttpError(InternalServerError, InternalErrorDetail))
      else
        var updated := ApplyAdminUpdate(users[i], f);
        Success((users[i := updated], updated))
  }

  /** The form's misspelt password field never reaches the stored password. */
  lemma UpdateCurrentAdminKeepsPassword(users: seq<User>, adminId: nat, f: AdminUpdate)
    ensures var r := UpdateCurrentAdmin(users, adminId, f);
      r.Success? ==> (UserCrud.GetUserById(users, adminId).Some?
        && r.value.1.password == UserCrud.GetUserById(users, adminId).value.password)
  {
    if UpdateCurrentAdmin(users, adminId, f).Success? {
      var r := UpdateCurrentAdmin(users, adminId, f).value;
      var i :| UserCrud.IsFirstWithId(users, adminId, i) && r.1 == ApplyAdminUpdate(users[i], f);
      var k :| UserCrud.IsFirstWithId(users, adminId, k) && users[k] == UserCrud.GetUserById(users, adminId).value;
    }
  }

  /** The session state of a row. */
  predicate LoggedIn(u: User) {
    u.accessToken.Some?
  }

  /** `admin_logout`: a missing row, or one already logged out, is a 404;
      otherwise both stored tokens are cleared. */
  function AdminLogout(users: seq<User>, adminId: nat): (r: Result<seq<User>, HttpError>)
    ensures r.Failure? <==> UserCrud.GetUserById(users, adminId).None? || !LoggedIn(UserCrud.GetUserById(users, adminId).value)
    ensures r.Failure? ==> r.error == HttpError(404, NotFoundOrLoggedOutDetail)
    ensures r.Success? ==> |r.value| == |users| && exists i :: (UserCrud.IsFirstWithId(users, adminId, i)
      && LoggedIn(users[i]) && !LoggedIn(r.value[i])
      && r.value[i] == users[i].(accessToken := None, refreshToken := None)
      && forall j :: 0 <= j < |users| && j != i ==> r.value[j] == users[j])
  {
    match UserCrud.FindById(users, adminId)
    case None => Failure(HttpError(NotFound, NotFoundOrLoggedOutDetail))
    case Some(i) =>
      if users[i].accessToken.None? then Failure(HttpError(NotFound, NotFoundOrLoggedOutDetail))
      else Success(users[i := users[i].(accessToken := None, refreshToken := None)])
  }

  lemma FirstWithIdUnique(users: seq<User>, id: nat, i: int, k: int)
    requires UserCrud.IsFirstWithId(users, id, i) && UserCrud.IsFirstWithId(users, id, k)
    ensures i == k
  {
  }

  /** A second logout in a row is refused with the same 404. */
  lemma LogoutTwiceFails(users: seq<User>, adminId: nat)
    ensures AdminLogout(users, adminId).Success? ==>
      AdminLogout(AdminLogout(users, adminId).value, adminId) == Failure(HttpError(404, NotFoundOrLoggedOutDetail))
  {
    if AdminLogout(users, adminId).Success? {
      var after := AdminLogout(users, adminId).value;
      var i :| UserCrud.IsFirstWithId(users, adminId, i) && !LoggedIn(after[i])
        && forall j :: 0 <= j < |users| && j != i ==> after[j] == users[j];
      assert UserCrud.IsFirstWithId(after, adminId, i);
      var k :| UserCrud.IsFirstWithId(after, adminId, k) && after[k] == UserCrud.GetUserById(after, adminId).value;
      FirstWithIdUnique(after, adminId, i, k);
    }
  }

  /** A logged-in row that is the first with its id: the session reads as
      logged in, a logout by that id succeeds, and afterwards it reads as
      logged out. */
  lemma LogoutFromLoggedIn(table: seq<User>, i: int)
    requires 0 <= i < |table| && UserCrud.IsFirstWithId(table, table[i].id, i)
    requires LoggedIn(table[i])
    ensures var id := table[i].id;
      && LoggedIn(UserCrud.GetUserById(table, id).value)
      && AdminLogout(table, id).Success?
      && !LoggedIn(UserCrud.GetUserById(AdminLogout(table, id).value, id).value)
  {
    var id := table[i].id;
    var m :| UserCrud.IsFirstWithId(table, id, m) && table[m] == UserCrud.GetUserById(table, id).value;
    FirstWithIdUnique(table, id, i, m);
    var out := AdminLogout(table, id).value;
    var n :| UserCrud.IsFirstWithId(table, id, n) && !LoggedIn(out[n])
      && forall j :: 0 <= j < |table| && j != n ==> out[j] == table[j];
    FirstWithIdUnique(table, id, i, n);
    assert UserCrud.IsFirstWithId(out, id, i);
    var p :| UserCrud.IsFirstWithId(out, id, p) && out[p] == UserCrud.GetUserById(out, id).value;
    FirstWithIdUnique(out, id, i, p);
  }

  /** In a table with unique ids, logging in puts the user in the logged-in
      state and a logout by that user's id takes it back out. */
  lemma LoginThenLogout(users: seq<User>, name: string, password: string, h: Middleware.Hasher, key: SigningKey, now: int)
    requires IdsUnique(users)
    ensures Login.Login(users, name, password, h, key, now).Success? ==>
      var after := Login.Login(users, name, password, h, key, now).value.0;
      var id := UserCrud.GetUser(users, name).value.id;
      && LoggedIn(UserCrud.GetUserById(after, id).value)
      && AdminLogout(after, id).Success?
      && !LoggedIn(UserCrud.GetUserById(AdminLogout(after, id).value, id).value)
  {
    if Login.Login(users, name, password, h, key, now).Success? {
      var after := Login.Login(users, name, password, h, key, now).value.0;
      var i :| UserCrud.IsFirstNamed(users, name, i)
        && after[i].accessToken.Some? && after[i].id == users[i].id
        && forall j :: 0 <= j < |users| && j != i ==> after[j] == users[j];
      var k :| UserCrud.IsFirstNamed(users, name, k) && users[k] == UserCrud.GetUser(users, name).value;
      UserCrud.FirstNamedUnique(users, name, i, k);
      assert UserCrud.IsFirstWithId(after, after[i].id, i);
      LogoutFromLoggedIn(after, i);
    }
  }

  /** Logging out touches no identifying column. */
  lemma LogoutKeepsTableValid(users: seq<User>, adminId: nat)
    requires UsersValid(users)
    requires AdminLogout(users, adminId).Success?
    ensures UsersValid(AdminLogout(users, adminId).value)
  {
    var after := AdminLogout(users, adminId).value;
    var i :| UserCrud.IsFirstWithId(users, adminId, i)
      && after[i] == users[i].(accessToken := None, refreshToken := None)
      && forall j :: 0 <= j < |users| && j != i ==> after[j] == users[j];
    assert forall j :: 0 <= j < |users| ==>
      after[j].id == users[j].id && after[j].username == users[j].username && after[j].email == users[j].email;
  }
}
