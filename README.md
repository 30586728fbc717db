# User-management API: registration, login and token issuance in Dafny

This project models the authentication core of a FastAPI user-management
backend. The core covers:

- registration (`create_user`), which refuses a registered email and then a
  registered username, and stores the bcrypt hash of the password;
- login (`generate_user_login`, `generate_user_token`), which authenticates by
  username and password, refuses a disabled account, signs an access token and
  a refresh token, and stores the refresh token as a `refresh_tokens` row;
- the two ORM records `User` and `RefreshToken`, with their defaults, their
  unique and foreign-key constraints and their relationship;
- the request schemas' validators: the alphanumeric username, the
  eight-character password minimum, the optional `UserUpdate` fields and the
  `TokenData` defaults.

Layout, one module per file:

| file | module | models |
|---|---|---|
| `wrappers.dfy` | `Wrappers` | `Option` and `Result` |
| `failures.dfy` | `Failures` | `HTTPException` and the store's commit errors |
| `models.dfy` | `Models` | `User`, `RefreshToken`, queries, relationship, constraints |
| `database.dfy` | `Database` | the session: both tables, `add` + `commit` with constraint checks |
| `user_schemas.dfy` | `UserSchemas` | app/schemas/user.py |
| `auth_schemas.dfy` | `AuthSchemas` | app/schemas/auth.py |
| `auth_service.dfy` | `AuthService` | app/services/auth.py |
| `user_service.dfy` | `UserService` | app/services/user.py |

Conventions:

- **The store.** It is the class `Database.Session`, which holds the `users`
  and `refresh_tokens` tables as sequences of rows and the next primary key of
  each. Its invariant `Valid()` is every constraint the columns declare: unique
  email, unique username, primary keys, and `user_id` as a foreign key into
  `users`. It also includes the `String(1000)` width of `token`. An insert that
  would break one of these is refused with a commit error and changes nothing.
- **Service operations.** Those that write to the store (`CreateUser`,
  `GenerateAndStoreTokens`, `GenerateUserLogin`, `GenerateUserToken`) are
  methods that take the session, as the Python functions take `db`. Their
  `ensures` give the whole new state in terms of the old one. The guards are
  the pure functions `LoginCheck`, `GetUserByEmail` and `GetUserByUsername`.
  The store effect of an issuance is the predicate `IssueEffect`.
- **Foreign code.** bcrypt, JWT signing and pydantic's `EmailStr` are
  function-valued parameters (`Hasher`, `Signer`, `EmailStr`). The signer can
  fail, as python-jose's `JWSError` does. The email check either rejects an
  address or returns it normalised, and the validated record holds the
  normalised form. The one property of bcrypt the proofs use is
  `HashVerifies(h)`: a password verifies against its own hash. It appears as a
  `requires` on the lemmas that need it.
- **Outside reads.** Every read of the clock and of the private-key file is an
  input, collected in `Readings`. The source reads the clock three times during
  an issuance (lines 47 and 49 once for each token, then line 78). So the
  refresh token's `exp` claim and the stored `expires_at` come from different
  readings. The database clock that fills `created_at` is a separate input.
- **Time.** An instant or a duration is an integer number of microseconds, the
  resolution of `datetime`/`timedelta`.

## Model

| member | source | states |
|---|---|---|
| `Models.NewUser` | app/models/user.py:13-21 | a newly committed user has the given email, username, hash and full name, `is_active` true, `is_admin` false, no `updated_at` |
| `Models.NewRefreshToken` | app/models/refresh_token.py:13-19 | a newly committed refresh token has the given user id, token and expiry, is active and has no `revoked_at` |
| `Models.FirstWithEmail` | app/services/user.py:11 | the query by email returns a user in the table with that email, and returns `None` exactly when no user has it |
| `Models.FirstWithUsername` | app/services/auth.py:26 | the query by username returns a user in the table with that username, and returns `None` exactly when no user has it |
| `Models.UserWithId` | app/models/refresh_token.py:22 | `RefreshToken.user` is a user whose id is the token's `user_id`; it is `None` exactly when no user has that id |
| `Models.RefreshTokensOf` | app/models/user.py:24 | `User.refresh_tokens` holds exactly the stored tokens whose `user_id` is the user's id |
| `Models.FindByUniqueEmail` | app/models/user.py:14 | with unique emails, looking up a user's email finds that very user |
| `Models.FindByUniqueUsername` | app/models/user.py:15 | with unique usernames, looking up a user's username finds that very user |
| `Models.FindByUniqueId` | app/models/user.py:13 | with the id as primary key, `RefreshToken.user` resolves to the one user with that id |
| `Models.RefreshTokensOfAppend` | app/models/user.py:24 | committing one token appends it to its owner's `refresh_tokens` and leaves every other user's list unchanged |
| `Models.TokenOwnerListsToken` | app/models/refresh_token.py:14-22 | in a consistent store every token has an owner, and that owner's `refresh_tokens` contain the token |
| `Models.AddUserKeepsConsistent` | app/models/user.py:13-15 | adding a user whose email, username and id are all unused keeps every table constraint |
| `Models.AddTokenKeepsConsistent` | app/models/refresh_token.py:13-15 | adding a token that fits 1000 characters, references an existing user and has a fresh id keeps every table constraint |
| `Database.UserRowConflict` | app/models/user.py:14-15 | a new user row is refused with a unique violation exactly when some user already has its email or its username |
| `Database.TokenRowConflict` | app/models/refresh_token.py:14-15 | a new token row is refused as too long exactly when the token exceeds 1000 characters, otherwise as a foreign-key violation exactly when no user has its `user_id`, and it is accepted otherwise |
| `Database.Session.AddUser` | app/services/user.py:43-45 | commit of a user: on a conflict nothing changes; otherwise exactly one row with the next id and the column defaults is appended; the constraints still hold |
| `Database.Session.AddRefreshToken` | app/services/auth.py:81-83 | commit of a token: on a conflict nothing changes; otherwise exactly one active, unrevoked row with the next id is appended; the constraints still hold |
| `UserSchemas.UsernameAlphanumeric` | app/schemas/user.py:15-19 | a username is accepted exactly when it is non-empty and alphanumeric, and is then returned unchanged; otherwise `ValueError` with the schema's message |
| `UserSchemas.EmailErrors` | app/schemas/user.py:7 | the `EmailStr` field gives no error exactly when it is present and email-validator accepts it; it reports "missing" for an absent field and "invalid" for a rejected one |
| `UserSchemas.UsernameErrors` | app/schemas/user.py:8 | the username field gives no error exactly when it is present and alphanumeric |
| `UserSchemas.PasswordErrors` | app/schemas/user.py:13 | the password field gives no error exactly when it is present with at least 8 characters |
| `UserSchemas.ValidateUserCreate` | app/schemas/user.py:5-19 | a `UserCreate` is built exactly when email, username and password are present, the email is accepted, the username is alphanumeric and the password has at least 8 characters. It then holds the normalised email and the other fields as sent, with `full_name` `None` when not sent. Otherwise each failing field is reported |
| `AuthSchemas.UsernameAlphanumeric` | app/schemas/auth.py:15-19 | the same rule as the other schema file, raising that file's own message |
| `AuthSchemas.ValidateUserCreate` | app/schemas/auth.py:5-19 | this file's `UserCreate` accepts exactly the same inputs and stores the normalised email; a non-alphanumeric username is reported with this file's message |
| `AuthSchemas.ValidateUserUpdate` | app/schemas/auth.py:21-27 | a `UserUpdate` is accepted exactly when its email is absent or accepted and its password is absent or has at least 8 characters. It then holds the normalised email and every other field as sent. Otherwise each failing field is reported |
| `AuthSchemas.OnlyEmailAndPasswordChecked` | app/schemas/auth.py:21-27 | for all inputs: two updates with the same email and password are accepted or refused together. Leaving out the full name and both flags never changes acceptance, since every field is optional |
| `AuthSchemas.MakeTokenData` | app/schemas/auth.py:56-59 | `TokenData` defaults to `username = None` and `scopes = []` |
| `AuthService.AuthenticateUser` | app/services/auth.py:24-29 | a user is returned only if it is in the table, has the username and the password verifies against its hash; an unknown username gives `None` |
| `AuthService.AuthenticateSucceedsIff` | app/services/auth.py:26-28 | with unique usernames, authentication succeeds exactly when some user has the username and a matching hash. An unknown user and a wrong password give the same `None` |
| `AuthService.Expiry` | app/services/auth.py:46-49 | `exp` is `now + delta` for a non-zero delta; for a missing or zero delta it is `now` plus `ACCESS_TOKEN_EXPIRE_MINUTES` minutes. This is Python's truthiness of an optional `timedelta` (the helper `IsTruthy`) |
| `AuthService.ClaimsToEncode` | app/services/auth.py:44-51 | the encoded claims are the caller's claims plus `exp`, with every other claim kept |
| `AuthService.CreateAccessToken` | app/services/auth.py:42-55 | fails with 500 "Error reading private key" when the key file cannot be read. Otherwise it returns the signature of the claims with their expiry under the configured algorithm, or fails with the signer's own error (`JWSError`) |
| `AuthService.IssuePair` | app/services/auth.py:66-73 | the pair is issued exactly when both key reads succeed and both signings succeed. Both tokens are signatures of exactly `{sub: username, exp}`, each with its own clock reading and delta. An unreadable first key gives the 500 key error |
| `AuthService.GenerateAndStoreTokens` | app/services/auth.py:57-85 | the users table is unchanged (the effect is the predicate `IssueEffect`). If a key read or a signing fails, nothing is stored. Otherwise exactly one row `(user.id, refresh token, now + refresh delta)` is appended, unless the store refuses it. The constraints still hold |
| `AuthService.LifetimeUnits` | app/services/auth.py:106-107 | the access lifetime is `ACCESS_TOKEN_EXPIRE_MINUTES` minutes and the refresh lifetime `REFRESH_TOKEN_EXPIRE_HOURS` hours: a refresh setting of `h` equals an access setting of `60 * h` |
| `AuthService.LoginCheck` | app/services/auth.py:91-104 | bad credentials (401) exactly when authentication fails; a disabled account (401) only after that; otherwise an active user from the table with that username and a matching hash |
| `AuthService.WrongPasswordBeforeDisabled` | app/services/auth.py:91-104 | a wrong password gets the credentials error even when the account is disabled |
| `AuthService.DisabledAccountRejected` | app/services/auth.py:99-104 | the right password on a disabled account gets "Usuario desactivado" |
| `AuthService.LoginCheckSucceedsIff` | app/services/auth.py:91-104 | with unique usernames, login passes its guards exactly for an active user whose hash the password verifies against |
| `AuthService.GenerateUserLogin` | app/services/auth.py:87-113 | when a guard fails, its error is returned and nothing is stored. Otherwise the effect is `IssueEffect`, with an access TTL in minutes and a refresh TTL in hours. The returned user is the authenticated one |
| `AuthService.GenerateUserToken` | app/services/auth.py:115-142 | the same guards and the same store effect as `GenerateUserLogin`; only the result leaves out the user |
| `AuthService.IssueAddsOneTokenForUser` | app/services/auth.py:75-83 | a failed issuance stores nothing. A successful one appends exactly one active, unrevoked row with the user's id, the returned refresh token and `expires_at = now + refresh delta`. Earlier rows and other users' tokens are untouched |
| `UserService.GetUserByEmail` | app/services/user.py:10-11 | returns a user with that email if one exists, else `None` |
| `UserService.GetUserByUsername` | app/services/user.py:13-14 | returns a user with that username if one exists, else `None` |
| `UserService.CreateUser` | app/services/user.py:16-47 | a registered email gives 400 first, then a registered username gives 400, and in both cases nothing changes. Otherwise exactly one user is appended with the given fields and `hashed_password = hash(password)`, and uniqueness still holds |
| `UserService.RegisteredUserCanLogIn` | app/services/user.py:35-45 | once a user is registered, logging in with the same username and password passes both login guards and yields that user |

## Left out

- bcrypt through passlib (app/services/auth.py:14-22) is foreign code. It is
  the `Hasher` parameter. `get_password_hash` and `verify_password` are its
  two fields, not members of their own. bcrypt salts, so two hashes of one
  password differ. The model's `hash` is a function, so it does not capture
  that. No proof depends on two hashes being equal.
- Because `hash` is opaque, "the stored password is never the plaintext" is
  stated only as "the stored password is `hash(password)`".
- RSA signing through python-jose (app/services/auth.py:53) is the `Signer`
  parameter. Its `None` result stands for every `JWSError`, without telling
  them apart. The conversion of `exp` to an integer epoch happens inside it.
  No decode path is among the files modelled, so no round trip is claimed.
- Reading the private key (app/services/auth.py:31-40) is file I/O. It is
  the optional key in `Readings`: `None` is a file that could not be read, and
  it aborts issuance before anything is stored.
- `datetime.now` and the database's `func.now()` are inputs in `Readings`
  and on `AddUser`. `updated_at`'s `onupdate` never fires in the modelled
  operations.
- The SQLAlchemy engine, transactions and concurrent sessions (app/database.py)
  are not modelled. A session is one sequential store.
- `.first()` without `ORDER BY` is modelled as the first row in insertion
  order. With the unique constraints, at most one row can match anyway.
- `User.refresh_tokens` has no `order_by` either, so the source leaves its
  order unspecified. `Models.RefreshTokensOf` uses insertion order, so
  "appended at the end" in `Models.RefreshTokensOfAppend` and
  `AuthService.IssueAddsOneTokenForUser` is the model's order. Membership is
  what the source fixes.
- Database.Session.AddRefreshToken: a refused insert leaves the next id
  unused. A PostgreSQL `SERIAL` sequence is not rolled back, so in the source
  a refused row still uses up an id. Only the id values of later rows
  differ.
- Database.Session.AddUser: the same holds for a refused user row. The
  registration guards prevent that refusal in `UserService.CreateUser`.
- The store is assumed to enforce what the columns declare: unique columns,
  the foreign key and the `String(1000)` width, as PostgreSQL does. The
  configured database is not among the files modelled.
- `is_active` is a nullable column in the source (a null reads as disabled).
  The model's flag is a plain boolean.
- `User.__rep__` and `RefreshToken._repr_` produce debugging text only.
- The HTTP routers (app/routes/auth.py, app/routes/users.py) and app/main.py
  are glue. Two mismatches in them stay outside this model:
  - app/routes/auth.py:39 unpacks three values from `generate_user_token`,
    which returns two.
  - app/routes/users.py:5-8 imports names that the modelled files do not
    define, and those are not part of this model:
    - from app/services/auth.py, `get_current_admin_user` and
      `get_current_active_user`;
    - from app/services/user.py, `user_id_update`, `get_user_profile`,
      `user_profile_update`, `user_change_password`, `get_user_list` and
      `get_user_by_id`;
    - from app/schemas/auth.py, `UserUpdateResponse`;
    - from app/schemas/user.py, `UserUpdate`, `UserInfo`, `UserSelfUpdate`,
      `ProfileUpdateResponse`, `PasswordChange` and `UserListResponse`.
- app/config.py does not define `ACCESS_TOKEN_EXPIRE_MINUTES`,
  `REFRESH_TOKEN_EXPIRE_HOURS` or `ALGORITHM`. They are the `Settings`
  parameter.
- app/models/roles.py has no behaviour and is not used by the modelled code.
- email-validator's own rules (which addresses it rejects, how it
  normalises them) are the `EmailStr` parameter and are not modelled.
- A required field sent as JSON null is reported as `Missing` in
  `UserSchemas.ValidateUserCreate` and `AuthSchemas.ValidateUserCreate`.
  pydantic reports it as a type error (`string_type`). Only the kind of the
  error differs; the field is refused either way.
- The response-only schemas (`UserInDB`, `User`, `Login`, `Token`,
  `ValidateData`, `TokenRequest`, `RefreshTokenRequest`,
  `PublicKeyResponse`) carry no rules.
- UserSchemas.UsernameAlphanumeric: `isalnum` is modelled exactly for
  characters up to U+00FF. Characters above that are treated as not
  alphanumeric, but Python accepts letters and digits from any script.
- AuthSchemas.UsernameAlphanumeric: the same restriction to characters up to
  U+00FF.
