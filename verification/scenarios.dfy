/** Whole-system runs: the seeder runs once at start-up on a fresh
    database, then requests arrive at the controller. */
module Scenarios {
  import opened Results
  import opened Entities
  import opened Store
  import opened Dtos
  import opened Validators
  import DataSeeder
  import AuthService
  import AuthController

  /** On a freshly seeded database, the first valid registration (whose row
      the database can store and whose values fit the columns) is answered
      200 with id 1, and the new user holds exactly one role: the seeded
      "User" role, id 3. */
  lemma FirstRegistrationGetsUserRole(dto: RegisterDto, isEmail: string -> bool, hash: string -> string,
                                      seededAt: Instant, registeredAt: Instant)
    requires RegisterValid(dto, isEmail)
    requires |dto.email| <= MaxEmailLength && |hash(dto.password)| <= MaxPasswordHashLength
    requires Storable(dto.username) && Storable(dto.email) && Storable(hash(dto.password))
    ensures var s1 := DataSeeder.Seed(Empty, seededAt);
      var (s2, answer) := AuthController.Register(s1, dto, isEmail, hash, registeredAt);
      && answer == AuthController.RegisterOk(AuthResponseDto(1, dto.username, dto.email, AuthController.RegisterSuccessMessage))
      && AssignmentsOf(s2, 1) == [UserRole(1, 3)]
      && s2.roles[2].id == 3 && s2.roles[2].name == "User"
  {
    var s1 := DataSeeder.Seed(Empty, seededAt);
    EmptyIsValid();
    DataSeeder.SeedPreservesValid(Empty, seededAt);
    DataSeeder.SeedProvidesDefaultRole(Empty, seededAt);
    assert s1.users == [] && s1.nextUserId == 1 && s1.roles[2].id == 3;
    var draft := AuthService.Draft(dto, hash, registeredAt);
    assert UserStorable(draft) && UserFits(draft);
    var (s2, res) := AuthService.Register(s1, dto, hash, registeredAt);
    assert res == AuthService.Completed(Some(draft.(id := 1)));
    AuthService.RegisteredUserRoles(s1, dto, hash, registeredAt);
  }

  /** After a successful registration through the controller, a second
      registration with the same username is answered 409 and changes nothing. */
  lemma RepeatedUsernameConflicts(s: Store, dto: RegisterDto, again: RegisterDto, isEmail: string -> bool,
                                  hash: string -> string, now: Instant, later: Instant)
    requires AuthController.Register(s, dto, isEmail, hash, now).1.RegisterOk?
    requires RegisterValid(again, isEmail) && again.username == dto.username
    ensures var s2 := AuthController.Register(s, dto, isEmail, hash, now).0;
      AuthController.Register(s2, again, isEmail, hash, later) == (s2, AuthController.Conflict)
  {
    var s2 := AuthController.Register(s, dto, isEmail, hash, now).0;
    assert s2.users[|s2.users| - 1].username == dto.username;
  }

  /** A username with the character of code zero passes both validators
      (it is not blank), but the database cannot take it as a query
      parameter: the duplicate check throws and the request is answered
      500, whatever the store holds, with nothing written. The username
      "ab\0c" with e-mail "a@b.c" and password "password1" is one such
      request. */
  lemma UnstorableUsernameIsServerError(s: Store, dto: RegisterDto, isEmail: string -> bool,
                                        hash: string -> string, now: Instant)
    requires RegisterValid(dto, isEmail)
    requires '\0' in dto.username
    ensures AuthController.Register(s, dto, isEmail, hash, now) == (s, AuthController.InternalServerError)
  {
  }

  lemma NulUsernameExample(isEmail: string -> bool, hash: string -> string, now: Instant)
    requires isEmail("a@b.c")
    ensures var dto := RegisterDto("ab\0c", "a@b.c", "password1", "password1");
      && RegisterValid(dto, isEmail)
      && AuthController.Register(Empty, dto, isEmail, hash, now) == (Empty, AuthController.InternalServerError)
  {
    var dto := RegisterDto("ab\0c", "a@b.c", "password1", "password1");
    assert !IsBlank(dto.username) by { assert !IsWhiteSpace(dto.username[0]); }
    assert !IsBlank(dto.email) by { assert !IsWhiteSpace(dto.email[0]); }
    assert !IsBlank(dto.password) by { assert !IsWhiteSpace(dto.password[0]); }
    UnstorableUsernameIsServerError(Empty, dto, isEmail, hash, now);
  }
}
