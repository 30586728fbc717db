/**
 * The schemas of app/schemas/auth.py that carry rules: a second
 * `UserCreate` with its own alphanumeric-username validator, `UserUpdate`,
 * whose fields are all optional, and `TokenData` with its defaults. The
 * remaining classes of that file are plain response shapes.
 */
module AuthSchemas {
  import opened Wrappers
  import opened UserSchemas

  const UsernameNotAlphanumeric := "El nombre de usuario debe ser alfanumérico"

  /** The `username_alphanumeric` field validator of this file's `UserCreate`. */
  function UsernameAlphanumeric(v: string): (r: Result<string, string>)
    ensures r.Success? <==> IsAlnum(v)
    ensures r.Success? ==> r.value == v
    ensures r.Failure? ==> r.error == UsernameNotAlphanumeric
  {
    if !IsAlnum(v) then Failure(UsernameNotAlphanumeric) else Success(v)
  }

  /** Validating a body against this file's `UserCreate`: the same fields and
      rules as app/schemas/user.py, with this file's error message. */
  function ValidateUserCreate(emailStr: EmailStr, input: UserCreateInput): (r: Result<UserCreate, seq<FieldError>>)
    ensures r.Success? <==>
              && input.email.Some? && input.username.Some? && input.password.Some?
              && emailStr.validate(input.email.value).Some?
              && IsAlnum(input.username.value)
              && |input.password.value| >= MinPasswordLength
    ensures r.Success? ==>
              r.value == UserCreate(emailStr.validate(input.email.value).value, input.username.value,
                                    input.fullName, input.password.value)
    ensures r.Failure? ==>
              (ValueError("username", UsernameNotAlphanumeric) in r.error <==>
                 input.username.Some? && !IsAlnum(input.username.value))
  {
    var usernameErrors :=
      match input.username
      case None => [Missing("username")]
      case Some(s) =>
        match UsernameAlphanumeric(s)
        case Success(_) => []
        case Failure(msg) => [ValueError("username", msg)];
    var errors := EmailErrors(emailStr, input.email) + usernameErrors + PasswordErrors(input.password);
    if errors == [] then
      Success(UserCreate(emailStr.validate(input.email.value).value, input.username.value,
                         input.fullName, input.password.value))
    else
      Failure(errors)
  }

  /** `UserUpdate`: every field optional, `None` when not sent. */
  datatype UserUpdate = UserUpdate(
    email: Option<string>,
    fullName: Option<string>,
    password: Option<string>,
    isActive: Option<bool>,
    isAdmin: Option<bool>)

  /** Validating a body against `UserUpdate`: only an email or a password
      that is sent is checked; a sent email is kept in normalised form and
      every other field as sent. */
  function ValidateUserUpdate(emailStr: EmailStr, input: UserUpdate): (r: Result<UserUpdate, seq<FieldError>>)
    ensures r.Success? <==>
              && (input.email.None? || emailStr.validate(input.email.value).Some?)
              && (input.password.None? || |input.password.value| >= MinPasswordLength)
    ensures r.Success? ==>
              r.value == input.(email := if input.email.Some? then emailStr.validate(input.email.value) else None)
    ensures r.Failure? ==>
              && (InvalidEmail("email") in r.error <==>
                    input.email.Some? && emailStr.validate(input.email.value).None?)
              && (TooShort("password", MinPasswordLength) in r.error <==>
                    input.password.Some? && |input.password.value| < MinPasswordLength)
  {
    var emailErrors :=
      match input.email
      case None => []
      case Some(e) => if emailStr.validate(e).None? then [InvalidEmail("email")] else [];
    var passwordErrors :=
      match input.password
      case None => []
      case Some(p) => if |p| < MinPasswordLength then [TooShort("password", MinPasswordLength)] else [];
    var errors := emailErrors + passwordErrors;
    if errors == [] then
      Success(input.(email := if input.email.Some? then emailStr.validate(input.email.value) else None))
    else
      Failure(errors)
  }

  /** Every field but the email and the password is free: two updates that
      agree on those two are accepted or refused together, whatever their
      full name and flags, and any field may be left out. */
  lemma OnlyEmailAndPasswordChecked(emailStr: EmailStr, u: UserUpdate, v: UserUpdate)
    requires u.email == v.email && u.password == v.password
    ensures ValidateUserUpdate(emailStr, u).Success? <==> ValidateUserUpdate(emailStr, v).Success?
    ensures ValidateUserUpdate(emailStr, u.(fullName := None, isActive := None, isAdmin := None)).Success?
        <==> ValidateUserUpdate(emailStr, u).Success?
  {
  }

  /** `TokenData`. */
  datatype TokenData = TokenData(username: Option<string>, scopes: seq<string>)

  /** Building a `TokenData` from the fields given (`None`: not given):
      `username` defaults to `None` and `scopes` to the empty list. */
  function MakeTokenData(username: Option<string>, scopes: Option<seq<string>>): (d: TokenData)
    ensures d.username == username
    ensures scopes.None? ==> d.scopes == []
    ensures scopes.Some? ==> d.scopes == scopes.value
  {
    TokenData(username, if scopes.Some? then scopes.value else [])
  }
}
