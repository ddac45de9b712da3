/** server/domain/user/repository/userQuery.ts: reading a user by id. */
module UserQuery {
  import opened Wrappers
  import opened UserModel

  /** Why `findById` rejects. */
  datatype QueryError =
    | NotFound   // `findUniqueOrThrow` finds no row
    | InvalidId  // `brandedId.user.entity.parse` throws on the stored id

  /**
   * `toUserEntity` (lines 9-15). `isUserId` stands for the validation done by
   * `brandedId.user.entity.parse`, which returns the id unchanged or throws.
   */
  function ToUserEntity(row: UserRow, isUserId: UserId -> bool): (r: Result<UserEntity, QueryError>)
    ensures r.Success? <==> isUserId(row.id)
    ensures r.Failure? ==> r.error == InvalidId
  {
    if isUserId(row.id) then Success(UserEntity(row.id, row.email, row.signInName, row.createdAt))
    else Failure(InvalidId)
  }

  /**
   * `findById` (lines 18-19): the entity of the row with that primary key; it
   * rejects when there is no such row and when the stored id does not parse.
   */
  function FindById(table: Table, id: UserId, isUserId: UserId -> bool): (r: Result<UserEntity, QueryError>)
    ensures r == Failure(NotFound) <==> id !in table
    ensures r == Failure(InvalidId) <==> id in table && !isUserId(table[id].id)
    ensures r.Success? <==> id in table && isUserId(table[id].id)
    ensures r.Success? ==>
      && r.value.id == table[id].id
      && r.value.email == table[id].email
      && r.value.signInName == table[id].signInName
      && r.value.createdTime == table[id].createdAt
    ensures r.Success? && KeyedById(table) ==> r.value.id == id
  {
    if id in table then ToUserEntity(table[id], isUserId) else Failure(NotFound)
  }
}
