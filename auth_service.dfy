/**
 * Login and token issuance (app/services/auth.py).
 *
 * bcrypt (through passlib) and RSA signing of JWTs (through python-jose) are
 * foreign code, so they appear as function-valued parameters: a `Hasher`
 * with `hash` and `verify`, and a `Signer` with `encode`. The only fact about
 * bcrypt that the model relies on is `HashVerifies`. Each read of the clock
 * and of the private-key file is an input, gathered in `Readings`. The
 * three settings the file reads are gathered in `Settings`.
 */
module AuthService {
  import opened Wrappers
  import opened Failures
  import opened Models
  import opened Database

  const MicrosPerMinute := 60 * 1_000_000
  const MicrosPerHour := 60 * MicrosPerMinute

  /** passlib's bcrypt context: `hash(secret)` and `verify(secret, hashed)`. */
  datatype Hasher = Hasher(hash: string -> string, verify: (string, string) -> bool)

  /** A password verifies against a hash of itself. */
  ghost predicate HashVerifies(h: Hasher) {
    forall p :: h.verify(p, h.hash(p))
  }

  /** The values a JWT claim set holds here: text, or an instant. */
  datatype ClaimValue = Text(text: string) | Instant(micros: int)

  type Claims = map<string, ClaimValue>

  /** `jwt.encode(claims, private_key, algorithm=...)`: the token, or `None`
      when python-jose raises `JWSError` (a key it cannot parse, or an
      algorithm it cannot use with that key). */
  datatype Signer = Signer(encode: (Claims, string, string) -> Option<string>)

  /** `ACCESS_TOKEN_EXPIRE_MINUTES`, `REFRESH_TOKEN_EXPIRE_HOURS`, `ALGORITHM`. */
  datatype Settings = Settings(accessTokenExpireMinutes: int, refreshTokenExpireHours: int, algorithm: string)

  datatype Env = Env(hasher: Hasher, signer: Signer, settings: Settings)

  /** The `username` and `password` of an `OAuth2PasswordRequestForm`. */
  datatype LoginForm = LoginForm(username: string, password: string)

  /** What one issuance reads from outside, in order: the clock and the
      private-key file for the access token, the same two for the refresh
      token, the clock again for the stored `expires_at`, and the database
      clock for the row's `created_at`. A key of `None` is a file that could
      not be read. */
  datatype Readings = Readings(
    accessNow: int, accessKey: Option<string>,
    refreshNow: int, refreshKey: Option<string>,
    storeNow: int, commitNow: int)

  /** `(access_token, refresh_token)`. */
  datatype TokenPair = TokenPair(access: string, refresh: string)

  /** `(access_token, refresh_token, user)`. */
  datatype LoginResult = LoginResult(access: string, refresh: string, user: User)

  const IncorrectCredentials :=
    HttpException(HTTP_401_UNAUTHORIZED, "Nombre de usuario o contraseña incorrectos", true)
  const DisabledUser := HttpException(HTTP_401_UNAUTHORIZED, "Usuario desactivado", true)
  const PrivateKeyUnreadable :=
    HttpException(HTTP_500_INTERNAL_SERVER_ERROR, "Error reading private key", false)

  /** `authenticate_user`: the user with this username, if the password
      verifies against its stored hash; `None` otherwise. */
  function AuthenticateUser(users: seq<User>, h: Hasher, username: string, password: string): (r: Option<User>)
    ensures r.Some? ==> r.value in users && r.value.username == username
                        && h.verify(password, r.value.hashedPassword)
    ensures (forall u :: u in users ==> u.username != username) ==> r.None?
  {
    var user := FirstWithUsername(users, username);
    if user.None? || !h.verify(password, user.value.hashedPassword) then None else user
  }

  /** With unique usernames, authentication succeeds exactly when some user
      has the username and the password verifies against that user's hash;
      an unknown username and a wrong password both give `None`. */
  lemma AuthenticateSucceedsIff(users: seq<User>, h: Hasher, username: string, password: string)
    requires UsernamesUnique(users)
    ensures AuthenticateUser(users, h, username, password).Some? <==>
              exists u :: u in users && u.username == username && h.verify(password, u.hashedPassword)
  {
    if u :| u in users && u.username == username && h.verify(password, u.hashedPassword) {
      FindByUniqueUsername(users, u);
    }
  }

  /** `if expires_delta:` on an `Optional[timedelta]`: false for `None` and
      for a zero duration. */
  predicate IsTruthy(delta: Option<int>) {
    delta.Some? && delta.value != 0
  }

  /** The `exp` instant of `create_access_token`, from the clock reading `now`. */
  function Expiry(now: int, expiresDelta: Option<int>, settings: Settings): (exp: int)
    ensures expiresDelta.Some? && expiresDelta.value != 0 ==> exp == now + expiresDelta.value
    ensures expiresDelta.None? || expiresDelta == Some(0) ==>
              exp == now + settings.accessTokenExpireMinutes * MicrosPerMinute
  {
    if IsTruthy(expiresDelta) then now + expiresDelta.value
    else now + settings.accessTokenExpireMinutes * MicrosPerMinute
  }

  /** `to_encode = data.copy(); to_encode.update({"exp": expire})`: the
      caller's claims with `exp` set; the caller's own map is a value and is
      left as it was. */
  function ClaimsToEncode(data: Claims, exp: int): (c: Claims)
    ensures c.Keys == data.Keys + {"exp"}
    ensures c["exp"] == Instant(exp)
    ensures forall k :: k in data && k != "exp" ==> c[k] == data[k]
  {
    data["exp" := Instant(exp)]
  }

  /** `create_access_token(data, expires_delta)`: the signature of the claims
      with their expiry; the 500 error when the key file cannot be read, and
      the signer's own failure after that. */
  function CreateAccessToken(data: Claims, expiresDelta: Option<int>, now: int, key: Option<string>,
                             signer: Signer, settings: Settings): (r: Result<string, AppError>)
    ensures key.None? ==> r == Failure(Raised(PrivateKeyUnreadable))
    ensures key.Some? ==>
              var signed := signer.encode(ClaimsToEncode(data, Expiry(now, expiresDelta, settings)),
                                          key.value, settings.algorithm);
              && (r.Success? <==> signed.Some?)
              && (r.Success? ==> r.value == signed.value)
              && (r.Failure? ==> r.error == SigningFailed)
  {
    var expire := Expiry(now, expiresDelta, settings);
    var toEncode := ClaimsToEncode(data, expire);
    match key
    case None => Failure(Raised(PrivateKeyUnreadable))
    case Some(privateKey) =>
      match signer.encode(toEncode, privateKey, settings.algorithm)
      case None => Failure(SigningFailed)
      case Some(token) => Success(token)
  }

  /** The claims `{"sub": username, "exp": exp}` that both tokens are signed over. */
  function SubjectClaims(username: string, exp: int): Claims {
    map["sub" := Text(username), "exp" := Instant(exp)]
  }

  /** The two `create_access_token` calls of `generate_and_store_tokens`:
      both tokens name the user as subject. The pair is issued exactly when
      both key reads succeed and the signer accepts both claim sets. */
  function IssuePair(user: User, accessDelta: int, refreshDelta: int, env: Env, rd: Readings): (r: Result<TokenPair, AppError>)
    ensures r.Success? <==>
              && rd.accessKey.Some? && rd.refreshKey.Some?
              && env.signer.encode(SubjectClaims(user.username, Expiry(rd.accessNow, Some(accessDelta), env.settings)),
                                   rd.accessKey.value, env.settings.algorithm).Some?
              && env.signer.encode(SubjectClaims(user.username, Expiry(rd.refreshNow, Some(refreshDelta), env.settings)),
                                   rd.refreshKey.value, env.settings.algorithm).Some?
    ensures r.Failure? ==> r.error == Raised(PrivateKeyUnreadable) || r.error == SigningFailed
    ensures rd.accessKey.None? ==> r == Failure(Raised(PrivateKeyUnreadable))
    ensures r.Success? ==>
              Some(r.value.access) == env.signer.encode(
                SubjectClaims(user.username, Expiry(rd.accessNow, Some(accessDelta), env.settings)),
                rd.accessKey.value, env.settings.algorithm)
    ensures r.Success? ==>
              Some(r.value.refresh) == env.signer.encode(
                SubjectClaims(user.username, Expiry(rd.refreshNow, Some(refreshDelta), env.settings)),
                rd.refreshKey.value, env.settings.algorithm)
  {
    var sub := map["sub" := Text(user.username)];
    var access := CreateAccessToken(sub, Some(accessDelta), rd.accessNow, rd.accessKey, env.signer, env.settings);
    if access.Failure? then Failure(access.error)
    else
      var refresh := CreateAccessToken(sub, Some(refreshDelta), rd.refreshNow, rd.refreshKey, env.signer, env.settings);
      if refresh.Failure? then Failure(refresh.error)
      else
        assert ClaimsToEncode(sub, Expiry(rd.accessNow, Some(accessDelta), env.settings))
            == SubjectClaims(user.username, Expiry(rd.accessNow, Some(accessDelta), env.settings));
        assert ClaimsToEncode(sub, Expiry(rd.refreshNow, Some(refreshDelta), env.settings))
            == SubjectClaims(user.username, Expiry(rd.refreshNow, Some(refreshDelta), env.settings));
        Success(TokenPair(access.value, refresh.value))
  }

  /** What `generate_and_store_tokens` does to the `refresh_tokens` table and
      what it returns, from the table `tokens` and next id `nextId` before
      to `tokens'` and `nextId'` after. Signing fails before anything is
      stored; otherwise one row is committed, unless the store refuses it. */
  ghost predicate IssueEffect(users: seq<User>, tokens: seq<RefreshToken>, nextId: int,
                              user: User, accessDelta: int, refreshDelta: int, env: Env, rd: Readings,
                              r: Result<TokenPair, AppError>, tokens': seq<RefreshToken>, nextId': int)
  {
    var pair := IssuePair(user, accessDelta, refreshDelta, env, rd);
    if pair.Failure? then
      r == pair && tokens' == tokens && nextId' == nextId
    else
      var conflict := TokenRowConflict(users, user.id, pair.value.refresh);
      if conflict.Some? then
        r == Failure(Database(conflict.value)) && tokens' == tokens && nextId' == nextId
      else
        && r == pair
        && tokens' == tokens + [NewRefreshToken(nextId, user.id, pair.value.refresh,
                                                rd.storeNow + refreshDelta, rd.commitNow)]
        && nextId' == nextId + 1
  }

  /** `generate_and_store_tokens`. */
  method GenerateAndStoreTokens(db: Session, user: User, accessDelta: int, refreshDelta: int,
                                env: Env, rd: Readings) returns (r: Result<TokenPair, AppError>)
    requires db.Valid()
    modifies db
    ensures db.Valid()
    ensures db.users == old(db.users) && db.nextUserId == old(db.nextUserId)
    ensures IssueEffect(old(db.users), old(db.tokens), old(db.nextTokenId), user, accessDelta, refreshDelta,
                        env, rd, r, db.tokens, db.nextTokenId)
  {
    var pair := IssuePair(user, accessDelta, refreshDelta, env, rd);
    if pair.Failure? {
      return pair;
    }
    var stored := db.AddRefreshToken(user.id, pair.value.refresh, rd.storeNow + refreshDelta, rd.commitNow);
    if stored.Failure? {
      return Failure(Database(stored.error));
    }
    r := pair;
  }

  /** `timedelta(minutes=ACCESS_TOKEN_EXPIRE_MINUTES)`. */
  function AccessLifetime(settings: Settings): int {
    settings.accessTokenExpireMinutes * MicrosPerMinute
  }

  /** `timedelta(hours=REFRESH_TOKEN_EXPIRE_HOURS)`. */
  function RefreshLifetime(settings: Settings): int {
    settings.refreshTokenExpireHours * MicrosPerHour
  }

  /** The access lifetime is counted in minutes and the refresh lifetime in
      hours: a refresh setting of `h` lasts exactly as long as an access
      setting of `60 * h`. */
  lemma LifetimeUnits(settings: Settings)
    ensures AccessLifetime(settings) == settings.accessTokenExpireMinutes * 60_000_000
    ensures RefreshLifetime(settings)
         == AccessLifetime(settings.(accessTokenExpireMinutes := 60 * settings.refreshTokenExpireHours))
  {
  }

  /** The two guards `generate_user_login` and `generate_user_token` share:
      bad credentials first, then a disabled account. */
  function LoginCheck(users: seq<User>, h: Hasher, form: LoginForm): (r: Result<User, AppError>)
    ensures r.Success? ==> && r.value in users && r.value.isActive
                           && r.value.username == form.username
                           && h.verify(form.password, r.value.hashedPassword)
    ensures r.Failure? ==> r.error == Raised(IncorrectCredentials) || r.error == Raised(DisabledUser)
    ensures r == Failure(Raised(IncorrectCredentials)) <==>
              AuthenticateUser(users, h, form.username, form.password).None?
  {
    match AuthenticateUser(users, h, form.username, form.password)
    case None => Failure(Raised(IncorrectCredentials))
    case Some(user) => if !user.isActive then Failure(Raised(DisabledUser)) else Success(user)
  }

  /** A wrong password is reported as bad credentials whether or not the
      account is disabled: the active flag is never consulted first. */
  lemma WrongPasswordBeforeDisabled(users: seq<User>, h: Hasher, u: User, password: string)
    requires UsernamesUnique(users) && u in users
    requires !h.verify(password, u.hashedPassword)
    ensures LoginCheck(users, h, LoginForm(u.username, password)) == Failure(Raised(IncorrectCredentials))
  {
    FindByUniqueUsername(users, u);
  }

  /** The right password on a disabled account gives "Usuario desactivado". */
  lemma DisabledAccountRejected(users: seq<User>, h: Hasher, u: User, password: string)
    requires UsernamesUnique(users) && u in users
    requires h.verify(password, u.hashedPassword) && !u.isActive
    ensures LoginCheck(users, h, LoginForm(u.username, password)) == Failure(Raised(DisabledUser))
  {
    FindByUniqueUsername(users, u);
  }

  /** With unique usernames, login is admitted exactly for an active user
      whose stored hash the password verifies against. */
  lemma LoginCheckSucceedsIff(users: seq<User>, h: Hasher, form: LoginForm)
    requires UsernamesUnique(users)
    ensures LoginCheck(users, h, form).Success? <==>
              exists u :: && u in users && u.username == form.username && u.isActive
                          && h.verify(form.password, u.hashedPassword)
  {
    if u :| u in users && u.username == form.username && u.isActive && h.verify(form.password, u.hashedPassword) {
      FindByUniqueUsername(users, u);
    }
  }

  /** The token pair inside a login result. */
  function PairOf(r: Result<LoginResult, AppError>): Result<TokenPair, AppError> {
    match r
    case Success(login) => Success(TokenPair(login.access, login.refresh))
    case Failure(e) => Failure(e)
  }

  /** `generate_user_login`. */
  method GenerateUserLogin(db: Session, form: LoginForm, env: Env, rd: Readings)
    returns (r: Result<LoginResult, AppError>)
    requires db.Valid()
    modifies db
    ensures db.Valid()
    ensures db.users == old(db.users) && db.nextUserId == old(db.nextUserId)
    ensures LoginCheck(old(db.users), env.hasher, form).Failure? ==>
              && r == Failure(LoginCheck(old(db.users), env.hasher, form).error)
              && db.tokens == old(db.tokens) && db.nextTokenId == old(db.nextTokenId)
    ensures LoginCheck(old(db.users), env.hasher, form).Success? ==>
              && IssueEffect(old(db.users), old(db.tokens), old(db.nextTokenId),
                             LoginCheck(old(db.users), env.hasher, form).value,
                             AccessLifetime(env.settings), RefreshLifetime(env.settings),
                             env, rd, PairOf(r), db.tokens, db.nextTokenId)
              && (r.Success? ==> r.value.user == LoginCheck(old(db.users), env.hasher, form).value)
  {
    var user := AuthenticateUser(db.users, env.hasher, form.username, form.password);
    if user.None? {
      return Failure(Raised(IncorrectCredentials));
    }
    if !user.value.isActive {
      return Failure(Raised(DisabledUser));
    }
    var accessTokenExpires := AccessLifetime(env.settings);
    var refreshTokenExpires := RefreshLifetime(env.settings);
    var pair := GenerateAndStoreTokens(db, user.value, accessTokenExpires, refreshTokenExpires, env, rd);
    r := match pair
         case Success(p) => Success(LoginResult(p.access, p.refresh, user.value))
         case Failure(e) => Failure(e);
  }

  /** `generate_user_token`: the same guards and the same effect on the
      store as `generate_user_login`; only the result leaves out the user. */
  method GenerateUserToken(db: Session, form: LoginForm, env: Env, rd: Readings)
    returns (r: Result<TokenPair, AppError>)
    requires db.Valid()
    modifies db
    ensures db.Valid()
    ensures db.users == old(db.users) && db.nextUserId == old(db.nextUserId)
    ensures LoginCheck(old(db.users), env.hasher, form).Failure? ==>
              && r == Failure(LoginCheck(old(db.users), env.hasher, form).error)
              && db.tokens == old(db.tokens) && db.nextTokenId == old(db.nextTokenId)
    ensures LoginCheck(old(db.users), env.hasher, form).Success? ==>
              IssueEffect(old(db.users), old(db.tokens), old(db.nextTokenId),
                          LoginCheck(old(db.users), env.hasher, form).value,
                          AccessLifetime(env.settings), RefreshLifetime(env.settings),
                          env, rd, r, db.tokens, db.nextTokenId)
  {
    var user := AuthenticateUser(db.users, env.hasher, form.username, form.password);
    if user.None? {
      return Failure(Raised(IncorrectCredentials));
    }
    if !user.value.isActive {
      return Failure(Raised(DisabledUser));
    }
    var accessTokenExpires := AccessLifetime(env.settings);
    var refreshTokenExpires := RefreshLifetime(env.settings);
    r := GenerateAndStoreTokens(db, user.value, accessTokenExpires, refreshTokenExpires, env, rd);
  }

  /** A successful issuance adds exactly one row: it belongs to the user, holds
      the returned refresh token, is active and unrevoked, and expires one
      refresh lifetime after the store's clock reading. The user's
      `refresh_tokens` gain that row at the end; every other user's are
      unchanged. A failed issuance stores nothing. */
  lemma IssueAddsOneTokenForUser(users: seq<User>, tokens: seq<RefreshToken>, nextId: int,
                                 user: User, accessDelta: int, refreshDelta: int, env: Env, rd: Readings,
                                 r: Result<TokenPair, AppError>, tokens': seq<RefreshToken>, nextId': int)
    requires IssueEffect(users, tokens, nextId, user, accessDelta, refreshDelta, env, rd, r, tokens', nextId')
    ensures r.Failure? ==> tokens' == tokens
    ensures r.Success? ==>
              && |tokens'| == |tokens| + 1 && tokens'[..|tokens|] == tokens
              && tokens'[|tokens|].userId == user.id
              && tokens'[|tokens|].token == r.value.refresh
              && tokens'[|tokens|].isActive && tokens'[|tokens|].revokedAt.None?
              && tokens'[|tokens|].expiresAt == rd.storeNow + refreshDelta
    ensures r.Success? ==>
              RefreshTokensOf(tokens', user.id) == RefreshTokensOf(tokens, user.id) + [tokens'[|tokens|]]
    ensures r.Success? ==>
              forall id :: id != user.id ==> RefreshTokensOf(tokens', id) == RefreshTokensOf(tokens, id)
  {
    if r.Success? {
      var t := tokens'[|tokens|];
      assert tokens' == tokens + [t];
      RefreshTokensOfAppend(tokens, t, user.id);
      forall id | id != user.id
        ensures RefreshTokensOf(tokens', id) == RefreshTokensOf(tokens, id)
      {
        RefreshTokensOfAppend(tokens, t, id);
      }
    }
  }
}
