/**
 * Registration and user lookup (app/services/user.py).
 */
module UserService {
  import opened Wrappers
  import opened Failures
  import opened Models
  import opened Database
  import opened UserSchemas
  import opened AuthService

  const EmailAlreadyRegistered :=
    HttpException(HTTP_400_BAD_REQUEST, "El coreo electrónico ya esta registrado", false)
  const UsernameAlreadyRegistered :=
    HttpException(HTTP_400_BAD_REQUEST, "El nombre de usario ya esta registrado", false)

  /** `get_user_by_email`: a user with this email, or `None` when there is none. */
  function GetUserByEmail(db: Session, email: string): (r: Option<User>)
    reads db
    ensures r.Some? ==> r.value in db.users && r.value.email == email
    ensures r.None? <==> forall u :: u in db.users ==> u.email != email
  {
    FirstWithEmail(db.users, email)
  }

  /** `get_user_by_username`: a user with this username, or `None` when there is none. */
  function GetUserByUsername(db: Session, username: string): (r: Option<User>)
    reads db
    ensures r.Some? ==> r.value in db.users && r.value.username == username
    ensures r.None? <==> forall u :: u in db.users ==> u.username != username
  {
    FirstWithUsername(db.users, username)
  }

  /** `create_user`: refuses a registered email, then a registered username;
      otherwise commits one new user whose stored password is the hash of
      the one given. `now` is the database clock that fills `created_at`. */
  method CreateUser(db: Session, user: UserCreate, h: Hasher, now: int) returns (r: Result<User, AppError>)
    requires db.Valid()
    modifies db
    ensures db.Valid()
    ensures db.tokens == old(db.tokens) && db.nextTokenId == old(db.nextTokenId)
    ensures old(GetUserByEmail(db, user.email)).Some? ==>
              && r == Failure(Raised(EmailAlreadyRegistered))
              && db.users == old(db.users) && db.nextUserId == old(db.nextUserId)
    ensures old(GetUserByEmail(db, user.email)).None? && old(GetUserByUsername(db, user.username)).Some? ==>
              && r == Failure(Raised(UsernameAlreadyRegistered))
              && db.users == old(db.users) && db.nextUserId == old(db.nextUserId)
    ensures old(GetUserByEmail(db, user.email)).None? && old(GetUserByUsername(db, user.username)).None? ==>
              && r == Success(NewUser(old(db.nextUserId), user.email, user.username, h.hash(user.password),
                                      user.fullName, now))
              && db.users == old(db.users) + [r.value]
              && db.nextUserId == old(db.nextUserId) + 1
  {
    var byEmail := GetUserByEmail(db, user.email);
    if byEmail.Some? {
      return Failure(Raised(EmailAlreadyRegistered));
    }
    var byUsername := GetUserByUsername(db, user.username);
    if byUsername.Some? {
      return Failure(Raised(UsernameAlreadyRegistered));
    }
    var hashedPassword := h.hash(user.password);
    var added := db.AddUser(user.email, user.username, hashedPassword, user.fullName, now);
    // Both guards passed, so the commit meets no unique constraint to refuse.
    assert added.Success?;
    r := Success(added.value);
  }

  /** Registration then login: once `create_user` has committed a user, the
      password it was given passes both login guards for that user. */
  lemma RegisteredUserCanLogIn(users: seq<User>, tokens: seq<RefreshToken>, h: Hasher,
                               id: int, email: string, username: string, password: string,
                               fullName: Option<string>, now: int)
    requires HashVerifies(h)
    requires Consistent(users, tokens)
    requires FirstWithEmail(users, email).None? && FirstWithUsername(users, username).None?
    requires UserWithId(users, id).None?
    ensures var u := NewUser(id, email, username, h.hash(password), fullName, now);
            LoginCheck(users + [u], h, LoginForm(username, password)) == Success(u)
  {
    var u := NewUser(id, email, username, h.hash(password), fullName, now);
    AddUserKeepsConsistent(users, tokens, u);
    FindByUniqueUsername(users + [u], u);
    assert h.verify(password, h.hash(password));
  }
}
