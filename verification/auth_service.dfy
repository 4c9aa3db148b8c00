/** `AuthService.RegisterAsync` as a transition of the store. The password
    hasher is the parameter `hash` (its salt makes each call's output
    unpredictable, so any function stands for one run); the construction
    time of the user is the parameter `now`. */
module AuthService {
  import opened Results
  import opened Seqs
  import opened Entities
  import opened Store
  import opened Dtos

  /** How an awaited call ended: with a value, or with an exception that
      the database raised from `SaveChangesAsync`. */
  datatype Completion<+T> = Completed(value: T) | Faulted(error: DbError)

  const DefaultRoleName: string := "User"

  /** The user row that registration builds before saving it: the given
      username and e-mail, the hash of the password, every other property
      at its default. */
  function Draft(dto: RegisterDto, hash: string -> string, now: Instant): User {
    NewUser(now).(username := dto.username, email := dto.email, passwordHash := hash(dto.password))
  }

  /** `RegisterAsync(dto)`: `null` (here `Completed(None)`) for a taken
      username, then for a taken e-mail, leaving the store as it was;
      otherwise the saved user, after the first `SaveChanges`, followed by
      the assignment of the role named "User" when one exists. Each
      duplicate check is a query, and a query whose parameter the database
      cannot store throws. */
  function Register(s: Store, dto: RegisterDto, hash: string -> string, now: Instant): (r: (Store, Completion<Option<User>>))
    // a name the database cannot store makes its duplicate query throw, before anything is written
    ensures !Storable(dto.username) ==> r == (s, Faulted(UnstorableText(UsernameColumn)))
    ensures Storable(dto.username) && !AnyUsername(s, dto.username) && !Storable(dto.email) ==>
      r == (s, Faulted(UnstorableText(EmailColumn)))
    // duplicates: null, and nothing is written
    ensures Storable(dto.username) && AnyUsername(s, dto.username) ==> r == (s, Completed(None))
    ensures Storable(dto.username) && !AnyUsername(s, dto.username) && Storable(dto.email) && AnyEmail(s, dto.email) ==>
      r == (s, Completed(None))
    ensures r.1 == Completed(None) <==>
      Storable(dto.username) && (AnyUsername(s, dto.username) || (Storable(dto.email) && AnyEmail(s, dto.email)))
    // registration never touches the Roles table
    ensures r.0.roles == s.roles && r.0.nextRoleId == s.nextRoleId
    // success: exactly one new row, carrying the request's fields and the hash
    ensures r.1.Completed? && r.1.value.Some? ==>
      var u := r.1.value.value;
      && r.0.users == s.users + [u]
      && u.id == s.nextUserId
      && u.username == dto.username && u.email == dto.email
      && u.passwordHash == hash(dto.password)
      && u.isActive && u.updateAt == None && u.createAt == now
    // the default role: one assignment when a "User" role exists, none otherwise
    ensures r.1.Completed? && r.1.value.Some? ==>
      var u := r.1.value.value;
      match FirstRoleNamed(s.roles, DefaultRoleName)
      case Some(role) => r.0.userRoles == s.userRoles + [UserRole(u.id, role.id)]
      case None => r.0.userRoles == s.userRoles
    // a refused insert leaves the store as it was
    ensures r.1.Faulted? && !(UserStorable(Draft(dto, hash, now)) && UserFits(Draft(dto, hash, now))) ==> r.0 == s
  {
    if !Storable(dto.username) then (s, Faulted(UnstorableText(UsernameColumn)))
    else if AnyUsername(s, dto.username) then (s, Completed(None))
    else if !Storable(dto.email) then (s, Faulted(UnstorableText(EmailColumn)))
    else if AnyEmail(s, dto.email) then (s, Completed(None))
    else
      match InsertUser(s, Draft(dto, hash, now))
      case Err(e) => (s, Faulted(e))
      case Ok((s1, user)) =>
        match FirstRoleNamed(s1.roles, DefaultRoleName)
        case None => (s1, Completed(Some(user)))
        case Some(role) =>
          match InsertUserRole(s1, UserRole(user.id, role.id))
          case Ok(s2) => (s2, Completed(Some(user)))
          case Err(e) => (s1, Faulted(e))
  }

  /** In a valid store registration fails with an exception exactly when
      the username cannot be stored (its duplicate query throws), or when
      both names are free and the row cannot be stored or does not fit its
      columns (the validator bounds the username but not the e-mail, and the
      hash is the hasher's business). The duplicate checks agree with the
      unique indexes, and the default-role assignment always succeeds.
      Registration keeps the store valid in every case. */
  lemma RegisterPreservesValid(s: Store, dto: RegisterDto, hash: string -> string, now: Instant)
    requires Valid(s)
    ensures Valid(Register(s, dto, hash, now).0)
    ensures Register(s, dto, hash, now).1.Faulted? <==>
      || !Storable(dto.username)
      || (&& !AnyUsername(s, dto.username) && !AnyEmail(s, dto.email)
          && !(UserStorable(Draft(dto, hash, now)) && UserFits(Draft(dto, hash, now))))
  {
    var draft := Draft(dto, hash, now);
    if !Storable(dto.email) {
      assert !AnyEmail(s, dto.email);
    }
    if Storable(dto.username) && !AnyUsername(s, dto.username) && !AnyEmail(s, dto.email) && UserStorable(draft) && UserFits(draft) {
      InsertUserPreservesValid(s, draft);
      var (s1, user) := InsertUser(s, draft).value;
      match FirstRoleNamed(s1.roles, DefaultRoleName)
      case None =>
      case Some(role) =>
        var link := UserRole(user.id, role.id);
        assert HasUser(s1, user.id) by { assert user in s1.users; }
        assert HasRole(s1, role.id);
        assert link !in s1.userRoles by {
          assert !HasUser(s, s.nextUserId);
        }
        InsertUserRolePreservesValid(s1, link);
    }
  }

  /** The registered user holds exactly the default role when the store has
      one, and no role otherwise: its navigation collection starts empty and
      registration adds at most that one assignment. */
  lemma {:induction false} RegisteredUserRoles(s: Store, dto: RegisterDto, hash: string -> string, now: Instant)
    requires Valid(s)
    requires Register(s, dto, hash, now).1.Completed? && Register(s, dto, hash, now).1.value.Some?
    ensures var (s', res) := Register(s, dto, hash, now);
      AssignmentsOf(s', res.value.value.id) ==
        match FirstRoleNamed(s.roles, DefaultRoleName)
        case Some(role) => [UserRole(res.value.value.id, role.id)]
        case None => []
  {
    var (s', res) := Register(s, dto, hash, now);
    var u := res.value.value;
    FreshUserHasNoAssignments(s);
    var keep := (l: UserRole) => l.userId == u.id;
    assert AssignmentsOf(s, u.id) == Filter(s.userRoles, keep);
    match FirstRoleNamed(s.roles, DefaultRoleName)
    case None =>
    case Some(role) =>
      FilterAppend(s.userRoles, UserRole(u.id, role.id), keep);
  }

  /** Registering the same username a second time is refused, leaves the
      store alone, and so no second row with that username ever exists. */
  lemma RegisterTwiceRejected(s: Store, a: RegisterDto, b: RegisterDto, hash: string -> string, hash2: string -> string, now: Instant, later: Instant)
    requires Register(s, a, hash, now).1.Completed? && Register(s, a, hash, now).1.value.Some?
    requires b.username == a.username
    ensures var s1 := Register(s, a, hash, now).0;
      Register(s1, b, hash2, later) == (s1, Completed(None))
  {
  }
}
