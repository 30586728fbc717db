/**
 * The two ORM records of the core, `User` (app/models/user.py) and
 * `RefreshToken` (app/models/refresh_token.py), their column defaults, the
 * queries the services run on them, the relationship between them, and the
 * table constraints their columns declare.
 *
 * Timestamps are integers counting microseconds, the resolution of Python's
 * `datetime`.
 */
module Models {
  import opened Wrappers

  /** Width of the `refresh_tokens.token` column, declared `String(1000)`. */
  const TokenColumnWidth := 1000

  /** A row of `users`. `fullName` and `updatedAt` are nullable columns. */
  datatype User = User(
    id: int,
    email: string,
    username: string,
    hashedPassword: string,
    fullName: Option<string>,
    isActive: bool,
    isAdmin: bool,
    createdAt: int,
    updatedAt: Option<int>)

  /** A row of `refresh_tokens`. `revokedAt` is the one nullable column. */
  datatype RefreshToken = RefreshToken(
    id: int,
    userId: int,
    token: string,
    expiresAt: int,
    isActive: bool,
    createdAt: int,
    revokedAt: Option<int>)

  /** A `users` row as first committed: the caller gives the non-default
      columns, the database the id and `created_at`; the column defaults
      fill in the rest. */
  function NewUser(id: int, email: string, username: string, hashedPassword: string,
                   fullName: Option<string>, createdAt: int): (u: User)
    ensures u.isActive && !u.isAdmin && u.updatedAt == None
    ensures u.id == id && u.createdAt == createdAt
    ensures u.email == email && u.username == username
    ensures u.hashedPassword == hashedPassword && u.fullName == fullName
  {
    User(id, email, username, hashedPassword, fullName, true, false, createdAt, None)
  }

  /** A `refresh_tokens` row as first committed: active, never revoked. */
  function NewRefreshToken(id: int, userId: int, token: string, expiresAt: int, createdAt: int): (t: RefreshToken)
    ensures t.isActive && t.revokedAt == None
    ensures t.id == id && t.createdAt == createdAt
    ensures t.userId == userId && t.token == token && t.expiresAt == expiresAt
  {
    RefreshToken(id, userId, token, expiresAt, true, createdAt, None)
  }

  // ---------------------------------------------------------------------------
  // Queries: `db.query(User).filter(User.<column> == value).first()`.
  // The model takes the first matching row in table order.
  // ---------------------------------------------------------------------------

  function FirstWithEmail(users: seq<User>, email: string): (r: Option<User>)
    ensures r.Some? ==> r.value in users && r.value.email == email
    ensures r.None? <==> forall u :: u in users ==> u.email != email
  {
    if users == [] then None
    else if users[0].email == email then Some(users[0])
    else FirstWithEmail(users[1..], email)
  }

  function FirstWithUsername(users: seq<User>, username: string): (r: Option<User>)
    ensures r.Some? ==> r.value in users && r.value.username == username
    ensures r.None? <==> forall u :: u in users ==> u.username != username
  {
    if users == [] then None
    else if users[0].username == username then Some(users[0])
    else FirstWithUsername(users[1..], username)
  }

  /** `RefreshToken.user`: the user whose primary key is the token's `user_id`. */
  function UserWithId(users: seq<User>, id: int): (r: Option<User>)
    ensures r.Some? ==> r.value in users && r.value.id == id
    ensures r.None? <==> forall u :: u in users ==> u.id != id
  {
    if users == [] then None
    else if users[0].id == id then Some(users[0])
    else UserWithId(users[1..], id)
  }

  /** `User.refresh_tokens`: the rows of `refresh_tokens` whose `user_id` is
      the user's id, in table order. */
  function RefreshTokensOf(tokens: seq<RefreshToken>, userId: int): (r: seq<RefreshToken>)
    ensures forall t :: t in r <==> t in tokens && t.userId == userId
    ensures |r| <= |tokens|
  {
    if tokens == [] then []
    else (if tokens[0].userId == userId then [tokens[0]] else []) + RefreshTokensOf(tokens[1..], userId)
  }

  // ---------------------------------------------------------------------------
  // Table constraints.
  // ---------------------------------------------------------------------------

  /** `users.email` is `unique=True`. */
  ghost predicate EmailsUnique(users: seq<User>) {
    forall i, j :: 0 <= i < j < |users| ==> users[i].email != users[j].email
  }

  /** `users.username` is `unique=True`. */
  ghost predicate UsernamesUnique(users: seq<User>) {
    forall i, j :: 0 <= i < j < |users| ==> users[i].username != users[j].username
  }

  /** `users.id` is the primary key. */
  ghost predicate UserIdsUnique(users: seq<User>) {
    forall i, j :: 0 <= i < j < |users| ==> users[i].id != users[j].id
  }

  /** `refresh_tokens.id` is the primary key. */
  ghost predicate TokenIdsUnique(tokens: seq<RefreshToken>) {
    forall i, j :: 0 <= i < j < |tokens| ==> tokens[i].id != tokens[j].id
  }

  /** A token row fits its `String(1000)` column and its `user_id` is a
      foreign key into `users`. */
  ghost predicate TokenRowFits(users: seq<User>, t: RefreshToken) {
    |t.token| <= TokenColumnWidth && UserWithId(users, t.userId).Some?
  }

  /** Every constraint the two tables declare. */
  ghost predicate Consistent(users: seq<User>, tokens: seq<RefreshToken>) {
    && EmailsUnique(users)
    && UsernamesUnique(users)
    && UserIdsUnique(users)
    && TokenIdsUnique(tokens)
    && forall t :: t in tokens ==> TokenRowFits(users, t)
  }

  // ---------------------------------------------------------------------------
  // Lemmas.
  // ---------------------------------------------------------------------------

  /** With unique emails, looking a user's email up finds that very user. */
  lemma FindByUniqueEmail(users: seq<User>, u: User)
    requires EmailsUnique(users) && u in users
    ensures FirstWithEmail(users, u.email) == Some(u)
  {
    var r := FirstWithEmail(users, u.email);
    var i :| 0 <= i < |users| && users[i] == r.value;
    var k :| 0 <= k < |users| && users[k] == u;
  }

  /** With unique usernames, looking a user's username up finds that very user. */
  lemma FindByUniqueUsername(users: seq<User>, u: User)
    requires UsernamesUnique(users) && u in users
    ensures FirstWithUsername(users, u.username) == Some(u)
  {
    var r := FirstWithUsername(users, u.username);
    var i :| 0 <= i < |users| && users[i] == r.value;
    var k :| 0 <= k < |users| && users[k] == u;
  }

  /** With a primary key, `RefreshToken.user` resolves to the one user with that id. */
  lemma FindByUniqueId(users: seq<User>, u: User)
    requires UserIdsUnique(users) && u in users
    ensures UserWithId(users, u.id) == Some(u)
  {
    var r := UserWithId(users, u.id);
    var i :| 0 <= i < |users| && users[i] == r.value;
    var k :| 0 <= k < |users| && users[k] == u;
  }

  /** Committing one token row extends exactly its owner's `refresh_tokens`,
      at the end, and leaves every other user's list as it was. */
  lemma {:induction false} RefreshTokensOfAppend(tokens: seq<RefreshToken>, t: RefreshToken, userId: int)
    ensures RefreshTokensOf(tokens + [t], userId)
         == RefreshTokensOf(tokens, userId) + (if t.userId == userId then [t] else [])
  {
    var last := if t.userId == userId then [t] else [];
    if tokens == [] {
      assert tokens + [t] == [t];
      assert [t][1..] == [];
    } else {
      var rest := tokens[1..];
      var head := if tokens[0].userId == userId then [tokens[0]] else [];
      assert (tokens + [t])[0] == tokens[0];
      assert (tokens + [t])[1..] == rest + [t];
      RefreshTokensOfAppend(rest, t, userId);
      calc {
        RefreshTokensOf(tokens + [t], userId);
        head + RefreshTokensOf(rest + [t], userId);
        head + (RefreshTokensOf(rest, userId) + last);
        (head + RefreshTokensOf(rest, userId)) + last;
        RefreshTokensOf(tokens, userId) + last;
      }
    }
  }

  /** The two sides of the relationship agree: every stored token has an
      owner, and that owner's `refresh_tokens` lists the token. */
  lemma TokenOwnerListsToken(users: seq<User>, tokens: seq<RefreshToken>, t: RefreshToken)
    requires Consistent(users, tokens) && t in tokens
    ensures UserWithId(users, t.userId).Some?
    ensures t in RefreshTokensOf(tokens, UserWithId(users, t.userId).value.id)
  {
    assert TokenRowFits(users, t);
  }

  /** A user row that collides with no email, username or id keeps every
      constraint true. */
  lemma AddUserKeepsConsistent(users: seq<User>, tokens: seq<RefreshToken>, u: User)
    requires Consistent(users, tokens)
    requires FirstWithEmail(users, u.email).None?
    requires FirstWithUsername(users, u.username).None?
    requires UserWithId(users, u.id).None?
    ensures Consistent(users + [u], tokens)
  {
    var users' := users + [u];
    forall t | t in tokens ensures TokenRowFits(users', t) {
      assert TokenRowFits(users, t);
      var owner := UserWithId(users, t.userId).value;
      assert owner in users';
    }
  }

  /** A token row that fits its column, references an existing user and has a
      fresh id keeps every constraint true. */
  lemma AddTokenKeepsConsistent(users: seq<User>, tokens: seq<RefreshToken>, t: RefreshToken)
    requires Consistent(users, tokens)
    requires TokenRowFits(users, t)
    requires forall s :: s in tokens ==> s.id != t.id
    ensures Consistent(users, tokens + [t])
  {
    var tokens' := tokens + [t];
    forall i, j | 0 <= i < j < |tokens'| ensures tokens'[i].id != tokens'[j].id {
      if j == |tokens| {
        assert tokens'[i] in tokens;
      }
    }
  }
}
