/** The three persisted entities. Timestamps are `Instant`s counted in whole
    minutes; the navigation collections (`User.UserRoles`, `Role.UserRoles`)
    are not fields here but are read from the assignment table of the store
    (`Store.AssignmentsOf`). */
module Entities {
  import opened Results

  /** A point in time, in whole minutes. */
  type Instant = int

  /** A row of the Users table. There is no plaintext password field: only
      the hasher's output is ever kept. */
  datatype User = User(
    id: int,
    username: string,
    email: string,
    passwordHash: string,
    isActive: bool,
    createAt: Instant,
    updateAt: Option<Instant>)

  /** A row of the Roles table. */
  datatype Role = Role(
    id: int,
    name: string,
    description: Option<string>,
    createdAt: Instant)

  /** A row of the UserRoles join table; the pair is its composite key. */
  datatype UserRole = UserRole(userId: int, roleId: int)

  /** `new User()` before any property is assigned: id 0 (the database has
      not generated one yet), empty strings, active, created at `now`, never
      updated. */
  function NewUser(now: Instant): User {
    User(0, "", "", "", true, now, None)
  }

  /** `new Role { Name = .., Description = .. }`: id 0 until saved, created at `now`. */
  function NewRole(name: string, description: Option<string>, now: Instant): Role {
    Role(0, name, description, now)
  }
}
