/** The tables of the service as plain records: roles, users, issued tokens,
    and the two enumerated survey columns. Foreign keys are explicit ids. */
module Models {
  import opened Wrappers
  import opened Jwt
  import Seqs

  datatype Role = Role(id: nat, name: string, description: Option<string>)

  datatype University = University(id: nat, name: string)

  datatype Department = Department(id: nat, name: string)

  /** The personal columns the user routes and the seeding write. */
  datatype Profile = Profile(
    name: Option<string>,
    sid: string,
    lname: string,
    faName: string,
    phoneNumber: string,
    birthDate: Option<int>,
    idNumber: string,
    universityId: Option<int>,
    departmentId: Option<int>,
    major: Option<string>,
    degree: Option<string>,
    address: Option<string>,
    birthCity: Option<string>,
    status: Option<bool>)

  /** A user row. `password` is the stored credential column (named
      `hashed_password` in the table definition and `password` by the routes);
      `accessToken`/`refreshToken` hold the pair issued at the last login. */
  datatype User = User(
    id: nat,
    username: string,
    email: Option<string>,
    password: string,
    roleId: nat,
    tokenVersion: int,
    lastLogin: Option<int>,
    isActive: bool,
    accessToken: Option<Token>,
    refreshToken: Option<Token>,
    profile: Profile)

  const DefaultRoleId: nat := 1

  /** A fresh row: every column the caller does not give takes its default. */
  function NewUser(id: nat, username: string, email: Option<string>, password: string, profile: Profile): (u: User)
    ensures u.id == id && u.username == username && u.email == email
    ensures u.password == password && u.profile == profile
    ensures u.roleId == 1 && u.tokenVersion == 0 && u.isActive
    ensures u.lastLogin.None? && u.accessToken.None? && u.refreshToken.None?
  {
    User(id, username, email, password, DefaultRoleId, 0, None, true, None, None, profile)
  }

  /** A row of `user_tokens`: one issued access/refresh pair. */
  datatype UserToken = UserToken(
    userId: nat,
    accessToken: Token,
    refreshToken: Token,
    deviceInfo: string,
    ipAddress: string,
    accessTokenExpires: int,
    refreshTokenExpires: int,
    revoked: bool,
    revokedAt: Option<int>)

  function NewUserToken(
    userId: nat, accessToken: Token, refreshToken: Token, deviceInfo: string,
    ipAddress: string, accessExpires: int, refreshExpires: int): (t: UserToken)
    ensures t.userId == userId && t.accessToken == accessToken && t.refreshToken == refreshToken
    ensures t.deviceInfo == deviceInfo && t.ipAddress == ipAddress
    ensures t.accessTokenExpires == accessExpires && t.refreshTokenExpires == refreshExpires
    ensures !t.revoked && t.revokedAt.None?
  {
    UserToken(userId, accessToken, refreshToken, deviceInfo, ipAddress, accessExpires, refreshExpires, false, None)
  }

  predicate IdsUnique(users: seq<User>) {
    forall i, j :: 0 <= i < j < |users| ==> users[i].id != users[j].id
  }

  predicate UsernamesUnique(users: seq<User>) {
    forall i, j :: 0 <= i < j < |users| ==> users[i].username != users[j].username
  }

  /** NULL emails do not collide, as in SQL. */
  predicate EmailsUnique(users: seq<User>) {
    forall i, j :: 0 <= i < j < |users| && users[i].email.Some? ==> users[i].email != users[j].email
  }

  /** The uniqueness constraints of the `users` table. */
  predicate UsersValid(users: seq<User>) {
    IdsUnique(users) && UsernamesUnique(users) && EmailsUnique(users)
  }

  predicate RefreshTokensUnique(tokens: seq<UserToken>) {
    forall i, j :: 0 <= i < j < |tokens| ==> tokens[i].refreshToken != tokens[j].refreshToken
  }

  /** The id the serial primary key hands out next: above every id in use. */
  function NextUserId(users: seq<User>): (id: nat)
    ensures forall i :: 0 <= i < |users| ==> users[i].id < id
  {
    if |users| == 0 then 1
    else
      var rest := NextUserId(users[1..]);
      if users[0].id < rest then rest else users[0].id + 1
  }

  /** Hard-deleting a user row: `ON DELETE CASCADE` removes the user's tokens. */
  function PurgeUser(users: seq<User>, tokens: seq<UserToken>, id: nat): (r: (seq<User>, seq<UserToken>))
    ensures forall i :: 0 <= i < |r.0| ==> r.0[i].id != id && r.0[i] in users
    ensures forall i :: 0 <= i < |users| && users[i].id != id ==> users[i] in r.0
    ensures forall i :: 0 <= i < |r.1| ==> r.1[i].userId != id && r.1[i] in tokens
    ensures forall i :: 0 <= i < |tokens| && tokens[i].userId != id ==> tokens[i] in r.1
    ensures Seqs.IsSubsequence(r.0, users) && Seqs.IsSubsequence(r.1, tokens)
    ensures forall u :: multiset(r.0)[u] == if u.id != id then multiset(users)[u] else 0
    ensures forall t :: multiset(r.1)[t] == if t.userId != id then multiset(tokens)[t] else 0
  {
    (Seqs.Filter(users, (u: User) => u.id != id), Seqs.Filter(tokens, (t: UserToken) => t.userId != id))
  }

  /** `surveys.status`, constrained to three values, `draft` by default. */
  datatype SurveyStatus = Draft | Active | Closed {
    function Name(): string {
      match this
      case Draft => "draft"
      case Active => "active"
      case Closed => "closed"
    }
  }

  function ParseSurveyStatus(s: string): (r: Option<SurveyStatus>)
    ensures r.Some? ==> r.value.Name() == s
  {
    if s == "draft" then Some(Draft)
    else if s == "active" then Some(Active)
    else if s == "closed" then Some(Closed)
    else None
  }

  /** The check constraint admits exactly the names of the three statuses. */
  lemma SurveyStatusRoundTrip(st: SurveyStatus, s: string)
    ensures ParseSurveyStatus(st.Name()) == Some(st)
    ensures ParseSurveyStatus(s).Some? <==> s in {"draft", "active", "closed"}
  {
  }

  /** `questions.question_type`, constrained to four values. */
  datatype QuestionType = MultipleChoice | TextAnswer | Rating | Dropdown {
    function Name(): string {
      match this
      case MultipleChoice => "multiple_choice"
      case TextAnswer => "text"
      case Rating => "rating"
      case Dropdown => "dropdown"
    }
  }

  function ParseQuestionType(s: string): (r: Option<QuestionType>)
    ensures r.Some? ==> r.value.Name() == s
  {
    if s == "multiple_choice" then Some(MultipleChoice)
    else if s == "text" then Some(TextAnswer)
    else if s == "rating" then Some(Rating)
    else if s == "dropdown" then Some(Dropdown)
    else None
  }

  lemma QuestionTypeRoundTrip(q: QuestionType, s: string)
    ensures ParseQuestionType(q.Name()) == Some(q)
    ensures ParseQuestionType(s).Some? <==> s in {"multiple_choice", "text", "rating", "dropdown"}
  {
  }
}
