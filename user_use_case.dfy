/**
 * server/domain/user/useCase/userUseCase.ts: find the user of a verified
 * token, creating it on first access.
 *
 * `userMethod.create` and `toUserDto` are passed in as functions. The read and
 * the save are separate steps, so interleavings of two calls can be written
 * out one step at a time.
 */
module UserUseCase {
  import opened Wrappers
  import opened UserModel
  import opened UserQuery
  import opened UserCommand

  /** What one call leaves behind: the table, and the entity handed to `toUserDto`. */
  datatype Provisioned = Provisioned(rows: Table, user: UserEntity)

  /**
   * The steps after the read (lines 20-28): a found user is returned as it is;
   * any rejection of the read, mapped to `null` by the `.catch`, leads to
   * saving `newUser` and returning it.
   */
  function Provision(t: Table, found: Result<UserEntity, QueryError>, newUser: UserEntity): Provisioned {
    match found
    case Success(user) => Provisioned(t, user)
    case Failure(_) => Provisioned(Upserted(t, newUser), newUser)
  }

  /** One call of `findOrCreateUser` with no other call in between: read, then decide. */
  function FindOrCreate(t: Table, jwtUser: JwtUser, isUserId: UserId -> bool, create: JwtUser -> UserEntity): Provisioned {
    Provision(t, FindById(t, jwtUser.sub, isUserId), create(jwtUser))
  }

  /** `findOrCreateUser` (lines 10-29) against the table. */
  method FindOrCreateUser<D>(db: UserTable, jwtUser: JwtUser, isUserId: UserId -> bool,
                             create: JwtUser -> UserEntity, toDto: UserEntity -> D)
    returns (dto: D)
    requires db.Valid()
    modifies db
    ensures db.Valid()
    ensures FindById(old(db.rows), jwtUser.sub, isUserId).Success? ==>
      db.rows == old(db.rows) && dto == toDto(FindById(old(db.rows), jwtUser.sub, isUserId).value)
    ensures FindById(old(db.rows), jwtUser.sub, isUserId).Failure? ==>
      db.rows == Upserted(old(db.rows), create(jwtUser)) && dto == toDto(create(jwtUser))
    ensures db.rows == FindOrCreate(old(db.rows), jwtUser, isUserId, create).rows
    ensures dto == toDto(FindOrCreate(old(db.rows), jwtUser, isUserId, create).user)
  {
    var user := FindById(db.rows, jwtUser.sub, isUserId);
    if user.Success? {
      return toDto(user.value);
    }
    var newUser := create(jwtUser);
    db.Save(newUser);
    dto := toDto(newUser);
  }

  /** A user that exists (with a parseable id) is returned from its row, and nothing is written. */
  lemma ExistingUserIsReturned(t: Table, jwtUser: JwtUser, isUserId: UserId -> bool, create: JwtUser -> UserEntity)
    requires KeyedById(t)
    requires jwtUser.sub in t && isUserId(t[jwtUser.sub].id)
    ensures FindOrCreate(t, jwtUser, isUserId, create) == Provisioned(t, UserEntity(
      jwtUser.sub, t[jwtUser.sub].email, t[jwtUser.sub].signInName, t[jwtUser.sub].createdAt))
  {
  }

  /**
   * Every rejection of the read counts as "not found". In particular a row
   * whose stored id fails to parse is upserted over: it keeps its
   * `createdAt`, takes the new user's email and sign-in name, and the caller
   * gets the new user, not the stored one.
   */
  lemma AnyReadFailureCreates(t: Table, jwtUser: JwtUser, isUserId: UserId -> bool, create: JwtUser -> UserEntity)
    requires KeyedById(t)
    requires !(jwtUser.sub in t && isUserId(t[jwtUser.sub].id))
    ensures FindOrCreate(t, jwtUser, isUserId, create) ==
      Provisioned(Upserted(t, create(jwtUser)), create(jwtUser))
    ensures jwtUser.sub in t && create(jwtUser).id == jwtUser.sub ==>
      FindOrCreate(t, jwtUser, isUserId, create).rows[jwtUser.sub] ==
      UserRow(jwtUser.sub, create(jwtUser).email, create(jwtUser).signInName, t[jwtUser.sub].createdAt)
  {
    assert FindById(t, jwtUser.sub, isUserId).Failure?;
    UpsertedShape(t, create(jwtUser));
  }

  /**
   * When `userMethod.create` keys the new user by the token's `sub`, a call
   * leaves exactly one row with that id, changes no other row, adds no other
   * key, and never changes an existing `createdAt`.
   */
  lemma OneRowPerIdentity(t: Table, jwtUser: JwtUser, isUserId: UserId -> bool, create: JwtUser -> UserEntity)
    requires KeyedById(t)
    requires create(jwtUser).id == jwtUser.sub
    ensures KeyedById(FindOrCreate(t, jwtUser, isUserId, create).rows)
    ensures FindOrCreate(t, jwtUser, isUserId, create).rows.Keys == t.Keys + {jwtUser.sub}
    ensures jwtUser.sub in FindOrCreate(t, jwtUser, isUserId, create).rows
    ensures forall k :: k in t && k != jwtUser.sub ==> FindOrCreate(t, jwtUser, isUserId, create).rows[k] == t[k]
    ensures jwtUser.sub in t ==>
      FindOrCreate(t, jwtUser, isUserId, create).rows[jwtUser.sub].createdAt == t[jwtUser.sub].createdAt
  {
    UpsertedShape(t, create(jwtUser));
  }

  /**
   * On first access the caller gets exactly the user that was saved, and a
   * later read of the new row returns that same user.
   */
  lemma FirstAccessReturnsSavedUser(t: Table, jwtUser: JwtUser, isUserId: UserId -> bool, create: JwtUser -> UserEntity)
    requires KeyedById(t)
    requires jwtUser.sub !in t && create(jwtUser).id == jwtUser.sub && isUserId(jwtUser.sub)
    ensures FindOrCreate(t, jwtUser, isUserId, create).user == create(jwtUser)
    ensures FindOrCreate(t, jwtUser, isUserId, create).rows[jwtUser.sub] == NewRow(create(jwtUser))
    ensures FindById(FindOrCreate(t, jwtUser, isUserId, create).rows, jwtUser.sub, isUserId) ==
      Success(create(jwtUser))
  {
    SaveThenFind(t, create(jwtUser), isUserId);
  }

  /**
   * Two calls for the same new identity, interleaved as read, read, save, save:
   * both reads miss, both save. The table ends with one row for the id, whose
   * `createdAt` comes from the first save and whose email and sign-in name
   * come from the second; no other row changes; each caller gets its own new
   * user, so the second caller's `createdTime` matches the stored row only when
   * both new users carry the same time.
   */
  lemma RacingFirstAccess(t: Table, sub: UserId, isUserId: UserId -> bool, first: UserEntity, second: UserEntity)
    requires KeyedById(t)
    requires sub !in t && first.id == sub && second.id == sub
    ensures var read1 := FindById(t, sub, isUserId);
      var read2 := FindById(t, sub, isUserId);
      var p1 := Provision(t, read1, first);
      var p2 := Provision(p1.rows, read2, second);
      && KeyedById(p2.rows)
      && p2.rows.Keys == t.Keys + {sub}
      && p2.rows[sub] == UserRow(sub, second.email, second.signInName, first.createdTime)
      && (forall k :: k in t ==> p2.rows[k] == t[k])
      && p1.user == first && p2.user == second
      && (p2.user.createdTime == p2.rows[sub].createdAt <==> second.createdTime == first.createdTime)
  {
    UpsertedShape(t, first);
    UpsertedShape(Upserted(t, first), second);
    CreatedAtIsWrittenOnce(t, first, second);
  }

  /**
   * Two calls for the same new identity run one after the other: the second
   * read finds the first call's row, so the second call writes nothing and
   * returns the first user.
   */
  lemma SequentialAccessFindsFirstUser(t: Table, jwtUser: JwtUser, isUserId: UserId -> bool,
                                       create1: JwtUser -> UserEntity, create2: JwtUser -> UserEntity)
    requires KeyedById(t)
    requires jwtUser.sub !in t && isUserId(jwtUser.sub)
    requires create1(jwtUser).id == jwtUser.sub
    ensures var p1 := FindOrCreate(t, jwtUser, isUserId, create1);
      var p2 := FindOrCreate(p1.rows, jwtUser, isUserId, create2);
      p2.rows == p1.rows && p2.user == create1(jwtUser)
  {
    FirstAccessReturnsSavedUser(t, jwtUser, isUserId, create1);
  }
}
