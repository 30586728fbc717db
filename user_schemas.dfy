/**
 * The request schema for registration (app/schemas/user.py): `UserBase`
 * with `email`, `username` and an optional `full_name`, and `UserCreate`,
 * which adds a password of at least eight characters and requires an
 * alphanumeric username.
 *
 * Validation collects one error per failing field, in the order the
 * fields are declared. `EmailStr` is foreign code (email-validator): it is
 * the `EmailStr` parameter, which rejects an address (`None`) or returns
 * it in normalised form, and the validated record holds that form.
 */
module UserSchemas {
  import opened Wrappers

  /** `Field(..., min_length=8)` on the password. */
  const MinPasswordLength := 8

  const UsernameNotAlphanumeric := "El nombre del usuario debe ser alfanumérico"

  /** Python's `str.isalnum` on one character of the ASCII and Latin-1 range:
      a letter, or a character Python counts as a digit or numeric. */
  predicate IsAlnumChar(c: char) {
    var n := c as int;
    || ('0' <= c <= '9') || ('A' <= c <= 'Z') || ('a' <= c <= 'z')
    || n == 0xAA || n == 0xB2 || n == 0xB3 || n == 0xB5 || n == 0xB9 || n == 0xBA
    || (0xBC <= n <= 0xBE)
    || (0xC0 <= n <= 0xFF && n != 0xD7 && n != 0xF7)
  }

  /** `str.isalnum()`: true when the string is non-empty and every character
      is alphanumeric. */
  predicate IsAlnum(s: string) {
    |s| > 0 && forall i :: 0 <= i < |s| ==> IsAlnumChar(s[i])
  }

  /** email-validator as `EmailStr` applies it: `None` for an address it
      rejects, otherwise the normalised address (surrounding blanks
      stripped, domain lower-cased, a `Name <addr>` form reduced to `addr`). */
  datatype EmailStr = EmailStr(validate: string -> Option<string>)

  /** A request body as received: `None` is a field that is absent. A
      field sent as JSON null is also `None` here; pydantic reports a null
      required field as a type error, where the model reports it as missing. */
  datatype UserCreateInput = UserCreateInput(
    email: Option<string>,
    username: Option<string>,
    fullName: Option<string>,
    password: Option<string>)

  /** A validated `UserCreate`. */
  datatype UserCreate = UserCreate(
    email: string,
    username: string,
    fullName: Option<string>,
    password: string)

  /** One entry of pydantic's validation error list. */
  datatype FieldError =
    | Missing(field: string)
    | InvalidEmail(field: string)
    | TooShort(field: string, minLength: int)
    | ValueError(field: string, message: string)

  /** The `username_aplhanumeric` field validator: returns the value unchanged
      or raises `ValueError`. */
  function UsernameAlphanumeric(v: string): (r: Result<string, string>)
    ensures r.Success? <==> IsAlnum(v)
    ensures r.Success? ==> r.value == v
    ensures r.Failure? ==> r.error == UsernameNotAlphanumeric
  {
    if !IsAlnum(v) then Failure(UsernameNotAlphanumeric) else Success(v)
  }

  /** The errors a required `EmailStr` field contributes. */
  function EmailErrors(emailStr: EmailStr, v: Option<string>): (es: seq<FieldError>)
    ensures es == [] <==> v.Some? && emailStr.validate(v.value).Some?
    ensures Missing("email") in es <==> v.None?
    ensures InvalidEmail("email") in es <==> v.Some? && emailStr.validate(v.value).None?
  {
    match v
    case None => [Missing("email")]
    case Some(e) => if emailStr.validate(e).None? then [InvalidEmail("email")] else []
  }

  function UsernameErrors(v: Option<string>): (es: seq<FieldError>)
    ensures es == [] <==> v.Some? && IsAlnum(v.value)
  {
    match v
    case None => [Missing("username")]
    case Some(s) =>
      match UsernameAlphanumeric(s)
      case Success(_) => []
      case Failure(msg) => [ValueError("username", msg)]
  }

  function PasswordErrors(v: Option<string>): (es: seq<FieldError>)
    ensures es == [] <==> v.Some? && |v.value| >= MinPasswordLength
  {
    match v
    case None => [Missing("password")]
    case Some(s) => if |s| < MinPasswordLength then [TooShort("password", MinPasswordLength)] else []
  }

  /** Validating a body against `UserCreate`: the email is stored in its
      normalised form, the other fields as sent. */
  function ValidateUserCreate(emailStr: EmailStr, input: UserCreateInput): (r: Result<UserCreate, seq<FieldError>>)
    ensures r.Success? <==>
              && input.email.Some? && input.username.Some? && input.password.Some?
              && emailStr.validate(input.email.value).Some?
              && IsAlnum(input.username.value)
              && |input.password.value| >= MinPasswordLength
    ensures r.Success? ==>
              r.value == UserCreate(emailStr.validate(input.email.value).value, input.username.value,
                                    input.fullName, input.password.value)
    ensures r.Failure? ==>
              && (Missing("email") in r.error <==> input.email.None?)
              && (InvalidEmail("email") in r.error <==>
                    input.email.Some? && emailStr.validate(input.email.value).None?)
              && (Missing("username") in r.error <==> input.username.None?)
              && (ValueError("username", UsernameNotAlphanumeric) in r.error <==>
                    input.username.Some? && !IsAlnum(input.username.value))
              && (Missing("password") in r.error <==> input.password.None?)
              && (TooShort("password", MinPasswordLength) in r.error <==>
                    input.password.Some? && |input.password.value| < MinPasswordLength)
  {
    var errors := EmailErrors(emailStr, input.email) + UsernameErrors(input.username)
                  + PasswordErrors(input.password);
    if errors == [] then
      Success(UserCreate(emailStr.validate(input.email.value).value, input.username.value,
                         input.fullName, input.password.value))
    else
      Failure(errors)
  }
}
