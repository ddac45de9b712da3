/** server/domain/user/repository/userCommand.ts: saving a user by upsert. */
module UserCommand {
  import opened Wrappers
  import opened UserModel
  import opened UserQuery

  /** The row the upsert's `create` branch inserts (lines 13-18). */
  function NewRow(user: UserEntity): UserRow {
    UserRow(user.id, user.email, user.signInName, user.createdTime)
  }

  /**
   * The table after `tx.user.upsert` keyed by `user.id` (lines 8-19): an
   * existing row gets the new `email` and `signInName` only, a missing one is
   * created.
   */
  function Upserted(t: Table, user: UserEntity): (r: Table)
    ensures r.Keys == t.Keys + {user.id}
    ensures user.id in t ==> r[user.id].createdAt == t[user.id].createdAt
  {
    if user.id in t then t[user.id := t[user.id].(email := user.email, signInName := user.signInName)]
    else t[user.id := NewRow(user)]
  }

  /** The `User` table as a mutable store. */
  class UserTable {
    var rows: Table

    /** The primary key: each row is stored under its own id. */
    predicate Valid()
      reads this
    {
      KeyedById(rows)
    }

    constructor (initial: Table)
      requires KeyedById(initial)
      ensures Valid() && rows == initial
    {
      rows := initial;
    }

    /** `save` (lines 5-20). */
    method Save(user: UserEntity)
      requires Valid()
      modifies this
      ensures Valid()
      ensures rows == Upserted(old(rows), user)
      ensures rows.Keys == old(rows).Keys + {user.id}
      ensures user.id in old(rows) ==>
        rows[user.id] == old(rows)[user.id].(email := user.email, signInName := user.signInName)
      ensures user.id !in old(rows) ==> rows[user.id] == NewRow(user)
      ensures forall k :: k in old(rows) && k != user.id ==> rows[k] == old(rows)[k]
    {
      if user.id in rows {
        var row := rows[user.id];
        rows := rows[user.id := row.(email := user.email, signInName := user.signInName)];
      } else {
        rows := rows[user.id := NewRow(user)];
      }
    }
  }

  /**
   * What an upsert does to the table: a row for `user.id` exists afterwards,
   * an existing row keeps its id and `createdAt`, a new row carries all of the
   * entity's fields, no other row changes, and the primary key still holds.
   */
  lemma UpsertedShape(t: Table, user: UserEntity)
    ensures Upserted(t, user).Keys == t.Keys + {user.id}
    ensures user.id in t ==>
      && Upserted(t, user)[user.id].id == t[user.id].id
      && Upserted(t, user)[user.id].createdAt == t[user.id].createdAt
      && Upserted(t, user)[user.id].email == user.email
      && Upserted(t, user)[user.id].signInName == user.signInName
    ensures user.id !in t ==> Upserted(t, user)[user.id] == NewRow(user)
    ensures forall k :: k in t && k != user.id ==> Upserted(t, user)[k] == t[k]
    ensures KeyedById(t) ==> KeyedById(Upserted(t, user))
  {
  }

  /** Saving the same user twice leaves the same table as saving it once. */
  lemma UpsertIdempotent(t: Table, user: UserEntity)
    ensures Upserted(Upserted(t, user), user) == Upserted(t, user)
  {
    var once := Upserted(t, user);
    assert once[user.id].(email := user.email, signInName := user.signInName) == once[user.id];
  }

  /** `createdAt` is written once: later saves for the same id never change it. */
  lemma CreatedAtIsWrittenOnce(t: Table, first: UserEntity, later: UserEntity)
    requires first.id !in t && later.id == first.id
    ensures Upserted(Upserted(t, first), later)[first.id] ==
      UserRow(first.id, later.email, later.signInName, first.createdTime)
  {
  }

  /**
   * A saved user reads back: with a parseable id, `findById` returns the saved
   * email and sign-in name, and the stored `createdAt` (the entity's own time
   * when the row was new).
   */
  lemma SaveThenFind(t: Table, user: UserEntity, isUserId: UserId -> bool)
    requires KeyedById(t)
    ensures var createdTime := if user.id in t then t[user.id].createdAt else user.createdTime;
      isUserId(user.id) ==>
        FindById(Upserted(t, user), user.id, isUserId) ==
        Success(UserEntity(user.id, user.email, user.signInName, createdTime))
    ensures !isUserId(user.id) ==> FindById(Upserted(t, user), user.id, isUserId) == Failure(InvalidId)
  {
    UpsertedShape(t, user);
  }

  /** The create branch's field mapping and `toUserEntity` are inverse. */
  lemma NewRowRoundTrip(user: UserEntity, isUserId: UserId -> bool)
    requires isUserId(user.id)
    ensures ToUserEntity(NewRow(user), isUserId) == Success(user)
  {
  }
}
