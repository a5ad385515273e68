/** User lookups and the soft delete over the `users` table. The token CRUD
    file repeats `get_user` and `delete_user` with the same bodies; both
    are modelled here once. */
module UserCrud {
  import opened Wrappers
  import opened Models
  import Seqs

  /** `i` is the first row whose username is `name`: what `.first()` returns. */
  predicate IsFirstNamed(users: seq<User>, name: string, i: int) {
    0 <= i < |users| && users[i].username == name
    && forall j :: 0 <= j < i ==> users[j].username != name
  }

  predicate IsFirstWithId(users: seq<User>, id: nat, i: int) {
    0 <= i < |users| && users[i].id == id
    && forall j :: 0 <= j < i ==> users[j].id != id
  }

  function FindByUsername(users: seq<User>, name: string): (r: Option<nat>)
    ensures r.Some? ==> IsFirstNamed(users, name, r.value)
    ensures r.None? <==> forall j :: 0 <= j < |users| ==> users[j].username != name
  {
    Seqs.FindFirst(users, (u: User) => u.username == name)
  }

  function FindById(users: seq<User>, id: nat): (r: Option<nat>)
    ensures r.Some? ==> IsFirstWithId(users, id, r.value)
    ensures r.None? <==> forall j :: 0 <= j < |users| ==> users[j].id != id
  {
    Seqs.FindFirst(users, (u: User) => u.id == id)
  }

  /** `get_user`: the first user with this username, or none. */
  function GetUser(users: seq<User>, name: string): (r: Option<User>)
    ensures r.Some? ==> exists i :: IsFirstNamed(users, name, i) && users[i] == r.value
    ensures r.None? <==> forall j :: 0 <= j < |users| ==> users[j].username != name
  {
    match FindByUsername(users, name)
    case None => None
    case Some(i) => Some(users[i])
  }

  /** `get_user_by_id`: the first user with this id, or none. */
  function GetUserById(users: seq<User>, id: nat): (r: Option<User>)
    ensures r.Some? ==> exists i :: IsFirstWithId(users, id, i) && users[i] == r.value
    ensures r.None? <==> forall j :: 0 <= j < |users| ==> users[j].id != id
  {
    match FindById(users, id)
    case None => None
    case Some(i) => Some(users[i])
  }

  predicate UsernameTaken(users: seq<User>, name: string) {
    exists j :: 0 <= j < |users| && users[j].username == name
  }

  predicate EmailTaken(users: seq<User>, email: string) {
    exists j :: 0 <= j < |users| && users[j].email == Some(email)
  }

  /** `check_unique`: true iff neither the username nor the email is in use. */
  function CheckUnique(users: seq<User>, name: string, email: string): (r: bool)
    ensures r <==> forall j :: 0 <= j < |users| ==> users[j].username != name && users[j].email != Some(email)
  {
    var nameCheck := GetUser(users, name);
    var emailCheck := Seqs.FindFirst(users, (u: User) => u.email == Some(email));
    !(nameCheck.Some? || emailCheck.Some?)
  }

  /** `delete_user`: a soft delete. The first user with the name is kept and
      only its `is_active` flag is cleared; none is returned when no user has
      the name. */
  function DeleteUser(users: seq<User>, name: string): (r: Option<(seq<User>, User)>)
    ensures r.None? <==> forall j :: 0 <= j < |users| ==> users[j].username != name
    ensures r.Some? ==> |r.value.0| == |users|
    ensures r.Some? ==> exists i :: (IsFirstNamed(users, name, i)
      && r.value.0[i] == users[i].(isActive := false)
      && r.value.1 == r.value.0[i]
      && forall j :: 0 <= j < |users| && j != i ==> r.value.0[j] == users[j])
  {
    match FindByUsername(users, name)
    case None => None
    case Some(i) =>
      var updated := users[i].(isActive := false);
      Some((users[i := updated], updated))
  }

  lemma FirstNamedUnique(users: seq<User>, name: string, i: int, k: int)
    requires IsFirstNamed(users, name, i) && IsFirstNamed(users, name, k)
    ensures i == k
  {
  }

  /** Two tables with the same usernames row by row agree on `.first()`. */
  lemma FirstNamedSameNames(a: seq<User>, b: seq<User>, name: string, i: int)
    requires |a| == |b|
    requires forall j :: 0 <= j < |a| ==> a[j].username == b[j].username
    requires IsFirstNamed(a, name, i)
    ensures IsFirstNamed(b, name, i)
  {
  }

  /** Deleting twice leaves the table as deleting once. */
  lemma DeleteUserIdempotent(users: seq<User>, name: string)
    requires DeleteUser(users, name).Some?
    ensures DeleteUser(DeleteUser(users, name).value.0, name).Some?
    ensures DeleteUser(DeleteUser(users, name).value.0, name).value.0 == DeleteUser(users, name).value.0
  {
    var i :| IsFirstNamed(users, name, i) && DeleteUser(users, name).value.0[i] == users[i].(isActive := false)
      && forall j :: 0 <= j < |users| && j != i ==> DeleteUser(users, name).value.0[j] == users[j];
    var once := DeleteUser(users, name).value.0;
    FirstNamedSameNames(users, once, name, i);
    var k :| IsFirstNamed(once, name, k) && DeleteUser(once, name).value.0[k] == once[k].(isActive := false)
      && forall j :: 0 <= j < |once| && j != k ==> DeleteUser(once, name).value.0[j] == once[j];
    FirstNamedUnique(once, name, i, k);
    assert DeleteUser(once, name).value.0 == once;
  }

  /** The row survives the delete: it can still be looked up, now inactive. */
  lemma DeleteUserIsSoft(users: seq<User>, name: string)
    requires DeleteUser(users, name).Some?
    ensures GetUser(DeleteUser(users, name).value.0, name) == Some(DeleteUser(users, name).value.1)
    ensures !DeleteUser(users, name).value.1.isActive
  {
    var after := DeleteUser(users, name).value.0;
    var i :| IsFirstNamed(users, name, i) && after[i] == users[i].(isActive := false)
      && DeleteUser(users, name).value.1 == after[i]
      && forall j :: 0 <= j < |users| && j != i ==> after[j] == users[j];
    FirstNamedSameNames(users, after, name, i);
    var k :| IsFirstNamed(after, name, k) && after[k] == GetUser(after, name).value;
    FirstNamedUnique(after, name, i, k);
  }

  /** The soft delete keeps every uniqueness constraint of the table. */
  lemma DeleteUserKeepsTableValid(users: seq<User>, name: string)
    requires UsersValid(users)
    requires DeleteUser(users, name).Some?
    ensures UsersValid(DeleteUser(users, name).value.0)
  {
    var after := DeleteUser(users, name).value.0;
    assert forall j :: 0 <= j < |users| ==>
      after[j].id == users[j].id && after[j].username == users[j].username && after[j].email == users[j].email;
  }
}
