/** The request and response shapes of the authentication API and their
    validators: the two token kinds, the username and password rules of
    registration, the password-change rule of the update form, and the
    token response. Field constraints (`min_length`, `max_length`) run
    before the custom validators, as pydantic orders them. */
module AuthSchemas {
  import opened Wrappers
  import opened Text
  import opened Jwt

  /** The two values of `token_type`. */
  datatype TokenType = Access | Refresh {
    function Name(): string {
      match this
      case Access => "access"
      case Refresh => "refresh"
    }
  }

  function ParseTokenType(s: string): (r: Option<TokenType>)
    ensures r.Some? ==> r.value.Name() == s
  {
    if s == "access" then Some(Access)
    else if s == "refresh" then Some(Refresh)
    else None
  }

  /** Exactly two strings name a token kind, and each names one kind. */
  lemma TokenTypeRoundTrip(tt: TokenType, s: string)
    ensures ParseTokenType(tt.Name()) == Some(tt)
    ensures ParseTokenType(s).Some? <==> s == "access" || s == "refresh"
    ensures Access.Name() != Refresh.Name()
  {
  }

  /** The reasons a field is rejected. */
  datatype ValidationError =
    | TooShort(minLength: nat)
    | TooLong(maxLength: nat)
    | ContainsSpaces
    | NotAlphanumeric
    | PasswordTooShort
    | NoDigit
    | NoUppercase
    | CurrentPasswordRequired
  {
    function Message(): string {
      match this
      case TooShort(n) => "String should have at least " + NatToString(n) + " characters"
      case TooLong(n) => "String should have at most " + NatToString(n) + " characters"
      case ContainsSpaces => "Username cannot contain spaces"
      case NotAlphanumeric => "Username must be alphanumeric"
      case PasswordTooShort => "Password must be at least 8 characters"
      case NoDigit => "Password must contain at least one number"
      case NoUppercase => "Password must contain at least one uppercase letter"
      case CurrentPasswordRequired => "Current password is required to change password"
    }
  }

  /** A `min_length`/`max_length` field constraint. */
  function CheckLength(v: string, min: nat, max: Option<nat>): (r: Result<string, ValidationError>)
    ensures r.Success? <==> min <= |v| && (max.None? || |v| <= max.value)
    ensures r.Success? ==> r.value == v
    ensures |v| < min ==> r == Failure(TooShort(min))
  {
    if |v| < min then Failure(TooShort(min))
    else if max.Some? && |v| > max.value then Failure(TooLong(max.value))
    else Success(v)
  }

  /** `UserCreate.validate_username`: spaces are reported before any other
      non-alphanumeric character; an accepted name is returned unchanged. */
  function ValidateUsername(v: string): (r: Result<string, ValidationError>)
    ensures r.Success? <==> IsAlnumString(v)
    ensures r.Success? ==> r.value == v
    ensures ' ' in v ==> r == Failure(ContainsSpaces)
    ensures ' ' !in v && !IsAlnumString(v) ==> r == Failure(NotAlphanumeric)
  {
    if ' ' in v then Failure(ContainsSpaces)
    else if !IsAlnumString(v) then Failure(NotAlphanumeric)
    else Success(v)
  }

  /** The `username` field of `UserCreate`: 3 to 50 characters, then the
      validator. */
  function UsernameField(v: string): (r: Result<string, ValidationError>)
    ensures r.Success? <==> 3 <= |v| <= 50 && IsAlnumString(v)
    ensures r.Success? ==> r.value == v
  {
    var _ :- CheckLength(v, 3, Some(50));
    ValidateUsername(v)
  }

  /** `UserCreate.validate_password`: accepted iff at least 8 characters, a
      digit and an upper-case letter; the three failures are reported in
      that order. */
  function ValidatePassword(v: string): (r: Result<string, ValidationError>)
    ensures r.Success? <==> |v| >= 8 && HasDigit(v) && HasUpper(v)
    ensures r.Success? ==> r.value == v
    ensures |v| < 8 ==> r == Failure(PasswordTooShort)
    ensures |v| >= 8 && !HasDigit(v) ==> r == Failure(NoDigit)
    ensures |v| >= 8 && HasDigit(v) && !HasUpper(v) ==> r == Failure(NoUppercase)
  {
    if |v| < 8 then Failure(PasswordTooShort)
    else if !HasDigit(v) then Failure(NoDigit)
    else if !HasUpper(v) then Failure(NoUppercase)
    else Success(v)
  }

  /** The `password` field of `UserCreate`: `min_length=8`, then the validator. */
  function PasswordField(v: string): (r: Result<string, ValidationError>)
    ensures r.Success? <==> |v| >= 8 && HasDigit(v) && HasUpper(v)
    ensures r.Success? ==> r.value == v
  {
    var _ :- CheckLength(v, 8, None);
    ValidatePassword(v)
  }

  /** Because the field constraint runs first, the validator's own length
      message never reaches a caller of the `password` field. */
  lemma PasswordFieldHidesValidatorLengthCheck(v: string)
    ensures PasswordField(v) != Failure(PasswordTooShort)
    ensures |v| < 8 ==> PasswordField(v) == Failure(TooShort(8))
  {
  }

  /** `UserUpdate.validate_new_password`: a non-empty new password needs a
      non-empty current password (`values.get('current_password')`, which is
      absent when that field was unset or failed its own check). */
  function ValidateNewPassword(newPassword: Option<string>, currentPassword: Option<string>): (r: Result<Option<string>, ValidationError>)
    ensures r.Failure? <==> newPassword.Some? && |newPassword.value| > 0 && (currentPassword.None? || |currentPassword.value| == 0)
    ensures r.Failure? ==> r.error == CurrentPasswordRequired
    ensures r.Success? ==> r.value == newPassword
  {
    var given := newPassword.Some? && |newPassword.value| > 0;
    var hasCurrent := currentPassword.Some? && |currentPassword.value| > 0;
    if given && !hasCurrent then Failure(CurrentPasswordRequired) else Success(newPassword)
  }

  const DefaultTokenType := "bearer"

  /** The token response: `token_type` is "bearer" unless given. */
  datatype TokenResponse = TokenResponse(accessToken: Token, tokenType: string, expiresIn: int)

  function MakeTokenResponse(accessToken: Token, expiresIn: int, tokenType: Option<string>): (r: TokenResponse)
    ensures r.accessToken == accessToken && r.expiresIn == expiresIn
    ensures tokenType.None? ==> r.tokenType == "bearer"
    ensures tokenType.Some? ==> r.tokenType == tokenType.value
  {
    TokenResponse(accessToken, if tokenType.Some? then tokenType.value else DefaultTokenType, expiresIn)
  }

  /** `UserUpdate`: three optional fields, all unset by default. */
  datatype UserUpdate = UserUpdate(
    email: Field<Option<string>>,
    currentPassword: Field<Option<string>>,
    newPassword: Field<Option<string>>)
}
