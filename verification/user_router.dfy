/** Self-registration: the field rules of the registration form and the
    `register` route, which refuses a taken username and otherwise inserts
    one row with the default role. The form is validated before the route
    body runs; a body that breaks a field rule never reaches it. */
module UserRouter {
  import opened Wrappers
  import opened Text
  import opened Http
  import opened Models
  import opened Jwt
  import Middleware
  import UserCrud
  import Login

  /** The registration form. */
  datatype UserBase = UserBase(
    username: string,
    password: string,
    name: Option<string>,
    sid: string,
    lname: string,
    faName: string,
    phoneNumber: string,
    birthDate: int,
    idNumber: string,
    universityId: Field<int>,
    departmentId: Field<int>,
    major: string,
    degree: string,
    address: string,
    birthCity: string)

  /** `university_id` and `department_id` when the form leaves them out. */
  const DefaultUniversityId := 1
  const DefaultDepartmentId := 1

  /** A field with a default: the submitted value, or the default when the
      field was left out. The default itself is not validated. */
  function OrDefault(v: Field<int>, default: int): int {
    if v.Set? then v.value else default
  }

  /** A regular expression of the shape `^<prefix>[\d]{n}$`. */
  predicate MatchesDigitPattern(s: string, prefix: string, n: nat) {
    |s| == |prefix| + n && s[..|prefix|] == prefix && AllDigits(s[|prefix|..])
  }

  /** `^09[\d]{9}$`. */
  predicate ValidPhoneNumber(s: string) {
    MatchesDigitPattern(s, "09", 9)
  }

  /** `^[\d]{10}$`. */
  predicate ValidIdNumber(s: string) {
    MatchesDigitPattern(s, "", 10)
  }

  predicate InRange(s: string, min: nat, max: nat) {
    min <= |s| <= max
  }

  /** Every field constraint of the form. */
  predicate ValidUserBase(f: UserBase) {
    && InRange(f.username, 4, 20)
    && InRange(f.password, 8, 100)
    && (f.name.None? || |f.name.value| <= 50)
    && |f.sid| == 11
    && InRange(f.lname, 3, 20)
    && InRange(f.faName, 3, 20)
    && ValidPhoneNumber(f.phoneNumber)
    && ValidIdNumber(f.idNumber)
    && (f.universityId.Unset? || f.universityId.value >= 1)
    && (f.departmentId.Unset? || f.departmentId.value >= 1)
  }

  /** A phone number is "09" followed by exactly nine decimal digits. */
  lemma PhoneNumberShape(s: string)
    ensures ValidPhoneNumber(s) <==> |s| == 11 && s[0] == '0' && s[1] == '9' && forall i :: 2 <= i < 11 ==> IsDigit(s[i])
  {
    if |s| == 11 && s[0] == '0' && s[1] == '9' && forall i :: 2 <= i < 11 ==> IsDigit(s[i]) {
      assert s[..2] == "09";
      assert forall i :: 0 <= i < 9 ==> s[2..][i] == s[i + 2];
    }
    if ValidPhoneNumber(s) {
      assert s[..2][0] == s[0] && s[..2][1] == s[1];
      assert forall i :: 2 <= i < 11 ==> s[i] == s[2..][i - 2];
    }
  }

  /** An id number is exactly ten decimal digits, so it always parses. */
  lemma IdNumberShape(s: string)
    ensures ValidIdNumber(s) <==> |s| == 10 && AllDigits(s)
    ensures ValidIdNumber(s) ==> ParseNat(s).Some?
  {
    assert s[0..] == s;
  }

  /** The form fields as written onto the new row. */
  function ProfileOf(f: UserBase): (p: Profile)
    ensures p.sid == f.sid && p.phoneNumber == f.phoneNumber && p.idNumber == f.idNumber
    ensures f.universityId.Set? ==> p.universityId == Some(f.universityId.value)
    ensures f.departmentId.Set? ==> p.departmentId == Some(f.departmentId.value)
    ensures f.universityId.Unset? ==> p.universityId == Some(1)
    ensures f.departmentId.Unset? ==> p.departmentId == Some(1)
    ensures p.name == f.name && p.status.None?
  {
    Profile(f.name, f.sid, f.lname, f.faName, f.phoneNumber, Some(f.birthDate), f.idNumber,
            Some(OrDefault(f.universityId, DefaultUniversityId)), Some(OrDefault(f.departmentId, DefaultDepartmentId)), Some(f.major), Some(f.degree),
            Some(f.address), Some(f.birthCity), None)
  }

  const UsernameExistsDetail := "username already exists"

  /** A refused registration: the form broke a field rule, or the route
      answered with an error. */
  datatype RegisterError = InvalidBody | Rejected(error: HttpError)

  /** `register`: a taken username is a 409 and nothing changes; otherwise
      exactly one row is appended with the submitted password, no email, the
      next id and role 1, whatever the form held. */
  function Register(users: seq<User>, f: UserBase): (r: Result<(seq<User>, User), RegisterError>)
    ensures r == Failure(InvalidBody) <==> !ValidUserBase(f)
    ensures r == Failure(Rejected(HttpError(409, UsernameExistsDetail))) <==> ValidUserBase(f) && UserCrud.UsernameTaken(users, f.username)
    ensures r.Success? <==> ValidUserBase(f) && !UserCrud.UsernameTaken(users, f.username)
    ensures r.Success? ==> r.value.0 == users + [r.value.1]
    ensures r.Success? ==> var u := r.value.1;
      && u.roleId == 1 && u.username == f.username && u.password == f.password
      && u.email.None? && u.isActive && u.accessToken.None? && u.profile == ProfileOf(f)
      && forall j :: 0 <= j < |users| ==> users[j].id != u.id
  {
    if !ValidUserBase(f) then Failure(InvalidBody)
    else match UserCrud.GetUser(users, f.username)
      case Some(_) => Failure(Rejected(HttpError(Conflict, UsernameExistsDetail)))
      case None =>
        var u := NewUser(NextUserId(users), f.username, None, f.password, ProfileOf(f));
        Success((users + [u], u))
  }

  /** Leaving an id out of the form is the same as sending 1: the form is
      accepted or refused alike and the same row is stored, so an omitted
      id is stored as 1. Sending 0 breaks the `ge=1` rule. */
  lemma OmittedIdsDefaultToOne(users: seq<User>, f: UserBase)
    ensures var omitted := f.(universityId := Unset, departmentId := Unset);
      Register(users, omitted) == Register(users, f.(universityId := Set(1), departmentId := Set(1)))
    ensures var omitted := f.(universityId := Unset, departmentId := Unset);
      Register(users, omitted).Success? ==>
        && Register(users, omitted).value.1.profile.universityId == Some(1)
        && Register(users, omitted).value.1.profile.departmentId == Some(1)
    ensures !ValidUserBase(f.(universityId := Set(0))) && !ValidUserBase(f.(departmentId := Set(0)))
  {
    var omitted := f.(universityId := Unset, departmentId := Unset);
    var ones := f.(universityId := Set(1), departmentId := Set(1));
    assert ValidUserBase(omitted) == ValidUserBase(ones);
    assert ProfileOf(omitted) == ProfileOf(ones);
  }

  /** Registering the same name twice: the second attempt is the 409. */
  lemma RegisterTwiceConflicts(users: seq<User>, f: UserBase, g: UserBase)
    requires Register(users, f).Success?
    requires ValidUserBase(g) && g.username == f.username
    ensures Register(Register(users, f).value.0, g) == Failure(Rejected(HttpError(409, UsernameExistsDetail)))
  {
    var after := Register(users, f).value.0;
    assert after[|users|].username == g.username;
  }

  /** A registration keeps every uniqueness constraint of the table. */
  lemma RegisterKeepsTableValid(users: seq<User>, f: UserBase)
    requires UsersValid(users)
    requires Register(users, f).Success?
    ensures UsersValid(Register(users, f).value.0)
  {
    var after := Register(users, f).value.0;
    var u := Register(users, f).value.1;
    assert forall j :: 0 <= j < |users| ==> after[j] == users[j];
    assert after[|users|] == u;
  }

  /** The password is stored as submitted, not hashed: a later login
      succeeds exactly when the hasher's verify accepts the submitted
      password as its own hash. */
  lemma RegisterThenLogin(users: seq<User>, f: UserBase, password: string, h: Middleware.Hasher, key: SigningKey, now: int)
    requires Register(users, f).Success?
    ensures var after := Register(users, f).value.0;
      Login.Login(after, f.username, password, h, key, now).Success? <==> h.verify(password, f.password)
  {
    var after := Register(users, f).value.0;
    var u := Register(users, f).value.1;
    assert UserCrud.IsFirstNamed(after, f.username, |users|);
    var k :| UserCrud.IsFirstNamed(after, f.username, k) && after[k] == UserCrud.GetUser(after, f.username).value;
    UserCrud.FirstNamedUnique(after, f.username, |users|, k);
  }
}
