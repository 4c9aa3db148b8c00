/** The relational store behind `AppDbContext`: the Users, Roles and
    UserRoles tables as sequences of rows in insertion order, the identity
    sequences that generate ids, and the constraints that the entity
    configurations declare (keys, maximum lengths, unique indexes, foreign
    keys with cascade delete). `Valid` is the conjunction of those
    constraints; the database refuses any write that would break it. */
module Store {
  import opened Results
  import opened Seqs
  import opened Entities

  const MaxUsernameLength: nat := 50
  const MaxEmailLength: nat := 100
  const MaxPasswordHashLength: nat := 256
  const MaxRoleNameLength: nat := 50
  const MaxDescriptionLength: nat := 200

  datatype Column = UsernameColumn | EmailColumn | PasswordHashColumn | RoleNameColumn | DescriptionColumn

  /** Why the database refused a write (surfaced by EF Core as a `DbUpdateException`). */
  datatype DbError =
    | UnstorableText(column: Column)
    | ValueTooLong(column: Column)
    | UniqueViolation(column: Column)
    | DuplicateKey
    | MissingReference

  /** `nextUserId` and `nextRoleId` are the identity sequences of the two
      tables: the id the next inserted row receives. They start at 1 and
      are never rewound, so an id is never reused. */
  datatype Store = Store(
    users: seq<User>,
    roles: seq<Role>,
    userRoles: seq<UserRole>,
    nextUserId: int,
    nextRoleId: int)

  /** A freshly migrated database. */
  const Empty: Store := Store([], [], [], 1, 1)

  // Key columns, as functions for DistinctBy.
  function UserId(u: User): int { u.id }
  function Username(u: User): string { u.username }
  function UserEmail(u: User): string { u.email }
  function RoleId(r: Role): int { r.id }
  function RoleName(r: Role): string { r.name }
  function LinkKey(l: UserRole): (int, int) { (l.userId, l.roleId) }

  /** PostgreSQL text cannot hold the character with code zero: a query
      parameter or a column value containing it is refused with an encoding
      error before any constraint is looked at. */
  predicate Storable(v: string) {
    '\0' !in v
  }

  /** Every text value of a Users row can be sent to the database. */
  predicate UserStorable(u: User) {
    Storable(u.username) && Storable(u.email) && Storable(u.passwordHash)
  }

  /** The column widths of a Users row. The columns are NOT NULL, which the
      string type already guarantees. */
  predicate UserFits(u: User) {
    && |u.username| <= MaxUsernameLength
    && |u.email| <= MaxEmailLength
    && |u.passwordHash| <= MaxPasswordHashLength
  }

  /** The column widths of a Roles row; a missing description is allowed. */
  predicate RoleFits(r: Role) {
    && |r.name| <= MaxRoleNameLength
    && (r.description.Some? ==> |r.description.value| <= MaxDescriptionLength)
  }

  predicate UsersValid(s: Store) {
    && 1 <= s.nextUserId
    && DistinctBy(s.users, UserId)
    && DistinctBy(s.users, Username)
    && DistinctBy(s.users, UserEmail)
    && forall u | u in s.users :: UserStorable(u) && UserFits(u) && 1 <= u.id < s.nextUserId
  }

  predicate RolesValid(s: Store) {
    && 1 <= s.nextRoleId
    && DistinctBy(s.roles, RoleId)
    && DistinctBy(s.roles, RoleName)
    && forall r | r in s.roles :: RoleFits(r) && 1 <= r.id < s.nextRoleId
  }

  predicate HasUser(s: Store, id: int) {
    exists u | u in s.users :: u.id == id
  }

  predicate HasRole(s: Store, id: int) {
    exists r | r in s.roles :: r.id == id
  }

  predicate UserRolesValid(s: Store) {
    && DistinctBy(s.userRoles, LinkKey)
    && forall l | l in s.userRoles :: HasUser(s, l.userId) && HasRole(s, l.roleId)
  }

  /** Every constraint the schema declares holds. */
  predicate Valid(s: Store) {
    UsersValid(s) && RolesValid(s) && UserRolesValid(s)
  }

  lemma EmptyIsValid()
    ensures Valid(Empty)
  {
  }

  // ---------------------------------------------------------------- queries

  /** `Users.AnyAsync(u => u.Username == name)`. */
  predicate AnyUsername(s: Store, name: string) {
    exists u | u in s.users :: u.username == name
  }

  /** `Users.AnyAsync(u => u.Email == email)`. */
  predicate AnyEmail(s: Store, email: string) {
    exists u | u in s.users :: u.email == email
  }

  /** `Roles.FirstOrDefaultAsync(r => r.Name == name)`, scanning in insertion order. */
  function FirstRoleNamed(roles: seq<Role>, name: string): (r: Option<Role>)
    ensures r.None? <==> forall x | x in roles :: x.name != name
    ensures r.Some? ==> exists i | 0 <= i < |roles| :: roles[i] == r.value && r.value.name == name
                                                     && forall j | 0 <= j < i :: roles[j].name != name
  {
    if roles == [] then None
    else if roles[0].name == name then Some(roles[0])
    else
      var r := FirstRoleNamed(roles[1..], name);
      assert r.Some? ==> exists i | 0 <= i < |roles[1..]| :: roles[1..][i] == r.value && forall j | 0 <= j < i :: roles[1..][j].name != name;
      if r.Some? then
        var i :| 0 <= i < |roles[1..]| && roles[1..][i] == r.value && forall j | 0 <= j < i :: roles[1..][j].name != name;
        assert roles[i + 1] == r.value;
        assert forall j | 0 <= j < i + 1 :: roles[j].name != name by {
          forall j | 0 <= j < i + 1 ensures roles[j].name != name {
            if j > 0 { assert roles[j] == roles[1..][j - 1]; }
          }
        }
        r
      else r
  }

  /** With unique role names the lookup by name is unambiguous: it returns
      the one role of that name, whichever order the rows are in. */
  lemma FirstRoleNamedIsTheRole(s: Store, role: Role)
    requires RolesValid(s)
    requires role in s.roles
    ensures FirstRoleNamed(s.roles, role.name) == Some(role)
  {
  }

  /** The `UserRoles` navigation collection of user `userId`. */
  function AssignmentsOf(s: Store, userId: int): (r: seq<UserRole>)
    ensures forall l :: l in r <==> l in s.userRoles && l.userId == userId
  {
    Filter(s.userRoles, (l: UserRole) => l.userId == userId)
  }

  /** In a valid store the next identity value belongs to nobody yet, so a
      user that is about to be saved starts with no role assignments. */
  lemma FreshUserHasNoAssignments(s: Store)
    requires Valid(s)
    ensures !HasUser(s, s.nextUserId)
    ensures AssignmentsOf(s, s.nextUserId) == []
  {
    FilterKeepsNothing(s.userRoles, (l: UserRole) => l.userId == s.nextUserId);
  }

  // ----------------------------------------------------------------- writes

  /** `Users.Add(u); SaveChanges()`: the database generates the id from the
      identity sequence and refuses a row with a text value it cannot store,
      a value too wide for a column, or a duplicate unique username or email.
      Text encoding is checked first, then width, then the unique indexes,
      column by column. */
  function InsertUser(s: Store, u: User): (r: Result<(Store, User), DbError>)
    ensures r.Ok? <==> UserStorable(u) && UserFits(u) && !AnyUsername(s, u.username) && !AnyEmail(s, u.email)
    ensures !UserStorable(u) ==> r.Err? && r.error.UnstorableText?
    ensures UserStorable(u) && !UserFits(u) ==> r.Err? && r.error.ValueTooLong?
    ensures UserStorable(u) && UserFits(u) && AnyUsername(s, u.username) ==> r == Err(UniqueViolation(UsernameColumn))
    ensures r.Ok? ==> r.value.1 == u.(id := s.nextUserId)
    ensures r.Ok? ==> r.value.0.users == s.users + [r.value.1]
    ensures r.Ok? ==> r.value.0 == s.(users := r.value.0.users, nextUserId := s.nextUserId + 1)
  {
    if !Storable(u.username) then Err(UnstorableText(UsernameColumn))
    else if !Storable(u.email) then Err(UnstorableText(EmailColumn))
    else if !Storable(u.passwordHash) then Err(UnstorableText(PasswordHashColumn))
    else if |u.username| > MaxUsernameLength then Err(ValueTooLong(UsernameColumn))
    else if |u.email| > MaxEmailLength then Err(ValueTooLong(EmailColumn))
    else if |u.passwordHash| > MaxPasswordHashLength then Err(ValueTooLong(PasswordHashColumn))
    else if AnyUsername(s, u.username) then Err(UniqueViolation(UsernameColumn))
    else if AnyEmail(s, u.email) then Err(UniqueViolation(EmailColumn))
    else
      var saved := u.(id := s.nextUserId);
      Ok((s.(users := s.users + [saved], nextUserId := s.nextUserId + 1), saved))
  }

  lemma InsertUserPreservesValid(s: Store, u: User)
    requires Valid(s)
    requires InsertUser(s, u).Ok?
    ensures Valid(InsertUser(s, u).value.0)
  {
    var (s', saved) := InsertUser(s, u).value;
    DistinctByAppend(s.users, saved, UserId);
    DistinctByAppend(s.users, saved, Username);
    DistinctByAppend(s.users, saved, UserEmail);
    forall l | l in s'.userRoles
      ensures HasUser(s', l.userId)
    {
      var w :| w in s.users && w.id == l.userId;
      assert w in s'.users;
    }
  }

  /** `UserRoles.Add(l); SaveChanges()`: refused when the composite key is
      taken or either foreign key points nowhere. */
  function InsertUserRole(s: Store, l: UserRole): (r: Result<Store, DbError>)
    ensures r.Ok? <==> l !in s.userRoles && HasUser(s, l.userId) && HasRole(s, l.roleId)
    ensures r.Ok? ==> r.value == s.(userRoles := s.userRoles + [l])
  {
    if l in s.userRoles then Err(DuplicateKey)
    else if !HasUser(s, l.userId) || !HasRole(s, l.roleId) then Err(MissingReference)
    else Ok(s.(userRoles := s.userRoles + [l]))
  }

  lemma InsertUserRolePreservesValid(s: Store, l: UserRole)
    requires Valid(s)
    requires InsertUserRole(s, l).Ok?
    ensures Valid(InsertUserRole(s, l).value)
  {
  }

  /** Deleting user `id`: its row goes, and the cascade on
      UserRoles.UserId removes every assignment that names it. Nothing
      else changes. */
  function DeleteUser(s: Store, id: int): (r: Store)
    ensures forall u :: u in r.users <==> u in s.users && u.id != id
    ensures forall l :: l in r.userRoles <==> l in s.userRoles && l.userId != id
    ensures r.roles == s.roles
    ensures r.nextUserId == s.nextUserId && r.nextRoleId == s.nextRoleId
  {
    s.(users := Filter(s.users, (u: User) => u.id != id),
       userRoles := Filter(s.userRoles, (l: UserRole) => l.userId != id))
  }

  lemma {:induction false} DeleteUserPreservesValid(s: Store, id: int)
    requires Valid(s)
    ensures Valid(DeleteUser(s, id))
    ensures !HasUser(DeleteUser(s, id), id)
    ensures AssignmentsOf(DeleteUser(s, id), id) == []
  {
    var r := DeleteUser(s, id);
    FilterPreservesDistinctBy(s.users, (u: User) => u.id != id, UserId);
    FilterPreservesDistinctBy(s.users, (u: User) => u.id != id, Username);
    FilterPreservesDistinctBy(s.users, (u: User) => u.id != id, UserEmail);
    FilterPreservesDistinctBy(s.userRoles, (l: UserRole) => l.userId != id, LinkKey);
    forall l | l in r.userRoles
      ensures HasUser(r, l.userId)
    {
      var w :| w in s.users && w.id == l.userId;
      assert w in r.users;
    }
    FilterKeepsNothing(r.userRoles, (l: UserRole) => l.userId == id);
  }

  /** Deleting role `id`: its row goes, and the cascade on
      UserRoles.RoleId removes every assignment that names it. Nothing
      else changes. */
  function DeleteRole(s: Store, id: int): (r: Store)
    ensures forall x :: x in r.roles <==> x in s.roles && x.id != id
    ensures forall l :: l in r.userRoles <==> l in s.userRoles && l.roleId != id
    ensures r.users == s.users
    ensures r.nextUserId == s.nextUserId && r.nextRoleId == s.nextRoleId
  {
    s.(roles := Filter(s.roles, (x: Role) => x.id != id),
       userRoles := Filter(s.userRoles, (l: UserRole) => l.roleId != id))
  }

  lemma {:induction false} DeleteRolePreservesValid(s: Store, id: int)
    requires Valid(s)
    ensures Valid(DeleteRole(s, id))
    ensures !HasRole(DeleteRole(s, id), id)
    ensures forall l | l in DeleteRole(s, id).userRoles :: l.roleId != id
  {
    var r := DeleteRole(s, id);
    FilterPreservesDistinctBy(s.roles, (x: Role) => x.id != id, RoleId);
    FilterPreservesDistinctBy(s.roles, (x: Role) => x.id != id, RoleName);
    FilterPreservesDistinctBy(s.userRoles, (l: UserRole) => l.roleId != id, LinkKey);
    forall l | l in r.userRoles
      ensures HasRole(r, l.roleId)
    {
      var w :| w in s.roles && w.id == l.roleId;
      assert w in r.roles;
    }
  }
}
