/** The persisted entities and the database that holds them. Times are whole
    seconds since the epoch (UTC). */
module Models {
  import opened Outcomes
  import Permissions

  /** A role row; `permissions` is the JSON text of a list of permission values. */
  datatype Role = Role(id: int, name: string, description: Option<string>, permissions: string)

  /** A user row; `roleId` refers to a role row. */
  datatype User = User(
    id: int,
    email: string,
    username: string,
    hashedPassword: string,
    fullName: string,
    isActive: bool,
    roleId: int)

  /** An API key row: only the digest of the raw key is kept. */
  /** `user.username == username`. */
  predicate HasUsername(user: User, username: string) {
    user.username == username
  }

  /** The row filter `User.username == name`, shared by login and seeding. */
  function UsernameIs(name: string): User -> bool {
    (user: User) => HasUsername(user, name)
  }

  datatype ApiKey = ApiKey(
    id: int,
    name: string,
    keyHash: string,
    isActive: bool,
    expiresAt: Option<string>,
    userId: int)

  datatype Book = Book(
    id: int,
    isbn: string,
    title: string,
    author: string,
    publisher: Option<string>,
    genre: Option<string>,
    description: Option<string>,
    totalCopies: int,
    availableCopies: int,
    publishedYear: Option<int>)

  /** The declared loan states; nothing ever writes `Overdue`. */
  datatype BorrowStatus = Active | Returned | Overdue

  datatype Borrow = Borrow(
    id: int,
    userId: int,
    bookId: int,
    status: BorrowStatus,
    borrowedAt: int,
    dueDate: int,
    returnedAt: Option<int>,
    notes: Option<string>)

  /** The whole database: one map per table, keyed by primary key. */
  datatype Db = Db(
    users: map<int, User>,
    roles: map<int, Role>,
    apiKeys: map<int, ApiKey>,
    books: map<int, Book>,
    borrows: map<int, Borrow>)

  const SecondsPerMinute: int := 60
  const SecondsPerDay: int := 86400

  /** `user.role`: the role row the user refers to, if there is one. */
  function RoleOf(db: Db, user: User): (r: Option<Role>)
    ensures r.Some? <==> user.roleId in db.roles
    ensures r.Some? ==> r.value == db.roles[user.roleId]
  {
    if user.roleId in db.roles then Some(db.roles[user.roleId]) else None
  }

  /** `user.role and user.role.name == "member"`: a user without a role is not a member. */
  predicate IsMember(db: Db, user: User) {
    var role := RoleOf(db, user);
    role.Some? && role.value.name == Permissions.RoleValue(Permissions.Member)
  }
}
