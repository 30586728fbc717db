/**
 * The relational store, reduced to what the core uses: the two tables as
 * sequences of rows, the next primary key of each, and the inserts that
 * `db.add(row); db.commit(); db.refresh(row)` perform. The store enforces
 * the constraints the columns declare, so an insert that would break one
 * is refused with a `CommitError` and changes nothing.
 */
module Database {
  import opened Wrappers
  import opened Failures
  import opened Models

  /** The constraint a new `users` row with this email and username would
      break, if any. */
  function UserRowConflict(users: seq<User>, email: string, username: string): (e: Option<CommitError>)
    ensures e.None? <==> (forall u :: u in users ==> u.email != email && u.username != username)
    ensures e.Some? ==> e.value == UniqueViolation
  {
    if FirstWithEmail(users, email).Some? || FirstWithUsername(users, username).Some? then Some(UniqueViolation)
    else None
  }

  /** The constraint a new `refresh_tokens` row would break, if any: the
      column width is checked as the row is formed, the foreign key after. */
  function TokenRowConflict(users: seq<User>, userId: int, token: string): (e: Option<CommitError>)
    ensures e == Some(ValueTooLong) <==> |token| > TokenColumnWidth
    ensures e == Some(ForeignKeyViolation) <==> |token| <= TokenColumnWidth && forall u :: u in users ==> u.id != userId
    ensures e.None? <==> |token| <= TokenColumnWidth && exists u :: u in users && u.id == userId
  {
    if |token| > TokenColumnWidth then Some(ValueTooLong)
    else if UserWithId(users, userId).None? then Some(ForeignKeyViolation)
    else None
  }

  /** A SQLAlchemy session over the `users` and `refresh_tokens` tables. */
  class Session {
    var users: seq<User>
    var tokens: seq<RefreshToken>
    var nextUserId: int
    var nextTokenId: int

    /** The table constraints hold, and the next primary keys are unused. */
    ghost predicate Valid()
      reads this
    {
      && Consistent(users, tokens)
      && (forall u :: u in users ==> u.id < nextUserId)
      && (forall t :: t in tokens ==> t.id < nextTokenId)
    }

    /** An empty database. */
    constructor ()
      ensures Valid()
      ensures users == [] && tokens == []
    {
      users, tokens := [], [];
      nextUserId, nextTokenId := 1, 1;
    }

    /** Adds and commits a `User(...)` built from the given columns; `now` is
        the database clock that fills `created_at`. */
    method AddUser(email: string, username: string, hashedPassword: string,
                   fullName: Option<string>, now: int) returns (r: Result<User, CommitError>)
      requires Valid()
      modifies this
      ensures Valid()
      ensures tokens == old(tokens) && nextTokenId == old(nextTokenId)
      ensures UserRowConflict(old(users), email, username).Some? ==>
                && r == Failure(UserRowConflict(old(users), email, username).value)
                && users == old(users) && nextUserId == old(nextUserId)
      ensures UserRowConflict(old(users), email, username).None? ==>
                && r == Success(NewUser(old(nextUserId), email, username, hashedPassword, fullName, now))
                && users == old(users) + [r.value]
                && nextUserId == old(nextUserId) + 1
    {
      var conflict := UserRowConflict(users, email, username);
      if conflict.Some? {
        return Failure(conflict.value);
      }
      var u := NewUser(nextUserId, email, username, hashedPassword, fullName, now);
      AddUserKeepsConsistent(users, tokens, u);
      users := users + [u];
      nextUserId := nextUserId + 1;
      r := Success(u);
    }

    /** Adds and commits a `RefreshToken(user_id=..., token=..., expires_at=...)`;
        `now` is the database clock that fills `created_at`. */
    method AddRefreshToken(userId: int, token: string, expiresAt: int, now: int)
      returns (r: Result<RefreshToken, CommitError>)
      requires Valid()
      modifies this
      ensures Valid()
      ensures users == old(users) && nextUserId == old(nextUserId)
      ensures TokenRowConflict(old(users), userId, token).Some? ==>
                && r == Failure(TokenRowConflict(old(users), userId, token).value)
                && tokens == old(tokens) && nextTokenId == old(nextTokenId)
      ensures TokenRowConflict(old(users), userId, token).None? ==>
                && r == Success(NewRefreshToken(old(nextTokenId), userId, token, expiresAt, now))
                && tokens == old(tokens) + [r.value]
                && nextTokenId == old(nextTokenId) + 1
    {
      var conflict := TokenRowConflict(users, userId, token);
      if conflict.Some? {
        return Failure(conflict.value);
      }
      var t := NewRefreshToken(nextTokenId, userId, token, expiresAt, now);
      AddTokenKeepsConsistent(users, tokens, t);
      tokens := tokens + [t];
      nextTokenId := nextTokenId + 1;
      r := Success(t);
    }
  }
}
