/**
 * The user records of server/domain/user: the stored row, the domain entity
 * and the table that holds the rows. Dates are epoch milliseconds.
 */
module UserModel {

  type UserId = string

  /** A row of the `User` table; `createdAt` is its DateTime as epoch milliseconds. */
  datatype UserRow = UserRow(id: UserId, email: string, signInName: string, createdAt: int)

  /** The domain entity `UserEntity`; `createdTime` is epoch milliseconds. */
  datatype UserEntity = UserEntity(id: UserId, email: string, signInName: string, createdTime: int)

  /**
   * The claims of a verified token. The use case reads only `sub`; the other
   * claims are what a new user is built from.
   */
  datatype JwtUser = JwtUser(sub: UserId, email: string, signInName: string)

  /** The table, keyed by primary key. */
  type Table = map<UserId, UserRow>

  /** Every row sits under its own id, so there is exactly one row per id. */
  predicate KeyedById(t: Table) {
    forall k :: k in t ==> t[k].id == k
  }
}
