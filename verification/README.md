# RbacMemberSystem auth core, modelled in Dafny

This project models the registration and role-assignment logic of the
RbacMemberSystem API and the pure rules around it:

- the three persisted entities (`User`, `Role`, the `UserRole` join row) and
  the database constraints declared by their EF Core configurations:
  primary keys, maximum column lengths, unique indexes on username, e-mail
  and role name, the composite `(UserId, RoleId)` key and the cascading
  foreign keys;
- `AuthService.RegisterAsync` as a pure transition of an in-memory store;
- `DataSeeder.SeedAsync`, the first-run bootstrap of the Roles table;
- the FluentValidation rule sets for the register and login requests;
- the claim list and expiry that `JwtService` puts into a token;
- the outcome mapping of `AuthController` (register, login) and the claim
  extraction of its profile action.

The store (`Store.Store`) holds the three tables as sequences of rows in
insertion order, plus the two identity sequences that generate ids. `Valid`
is the conjunction of every declared constraint. Registration writes through
`InsertUser` and `InsertUserRole`. These refuse a row that would break a
declared constraint: a value too wide for its column, a duplicate unique value,
a taken key, or a dangling foreign key. PostgreSQL text cannot hold the
character with code zero, so a value containing it is refused as well, and
so is a query that passes such a value as a parameter (`Store.Storable`). Seeding appends rows the model proves
valid directly, and the two deletes cascade as the configuration declares. An exception escaping a service call is modelled as
a `Faulted` completion, and the controller turns it into
`InternalServerError`. Time is an integer count of minutes. The clock
reading, the password hasher, the e-mail syntax check and the login service
are parameters.

What the code does, and so what the model does:

- Registration reports a taken username and a taken e-mail the same way. It
  returns `null` (here `Completed(None)`), and the controller answers both
  with 409 Conflict.
- `AuthService.LoginAsync` is called by the controller but defined nowhere,
  so the login service is a parameter. Nothing in the code validates tokens
  or reads `IsActive`.
- The default role is looked up by name and skipped silently when it is
  missing.
- FluentValidation's `NotEmpty()` also refuses strings made only of white
  space (`char.IsWhiteSpace`). "Non-empty" therefore means "not blank" in
  both validators.
- The username rule is `Length(3, 30)` although its message says 3-50. The
  rule decides.

An observation the model makes precise (`AuthController.Register`, last
ensures): the register validator bounds the username (30 characters, which
fits the 50-character column) but not the e-mail. A well-formed e-mail
longer than 100 characters passes validation, and the `Email` column then
refuses the row. The exception escapes the action as a server error instead
of a 400. The same happens if the hasher's output exceeds 256 characters.
(PostgreSQL stores an over-long value cut to the column width, without
error, when every excess character is a space; the model refuses every
over-long value, see "Left out".) A username containing the character
with code zero is not blank, so it passes validation too. The duplicate
query then throws, and the answer is again a server error
(`Scenarios.UnstorableUsernameIsServerError`).

## Model

| member | source | states |
|---|---|---|
| `Decimal.IntToStringRoundTrip` | RbacMemberSystem.Api/Services/JwtService.cs:17 | the decimal text written for a user id in the NameIdentifier claim reads back as that id |
| `Decimal.IntToStringInjective` | RbacMemberSystem.Api/Services/JwtService.cs:17 | two ids get the same claim text if and only if they are equal |
| `Store.FirstRoleNamed` | RbacMemberSystem.Api/Services/AuthService.cs:40 | the lookup finds nothing iff no role has the name; otherwise it returns a role of that name with no earlier row of that name |
| `Store.FirstRoleNamedIsTheRole` | RbacMemberSystem.Api/Data/Configurations/RoleConfiguration.cs:16 | with unique role names, the lookup by name returns the one role of that name |
| `Store.AssignmentsOf` | RbacMemberSystem.Api/Entities/User.cs:12 | a user's role collection is exactly the join rows that carry its id |
| `Store.FreshUserHasNoAssignments` | RbacMemberSystem.Api/Entities/User.cs:12 | in a valid store the next generated user id belongs to no row, so a new user starts with an empty role collection |
| `Store.InsertUser` | RbacMemberSystem.Api/Data/Configurations/UserConfiguration.cs:9-22 | a user row is accepted iff none of its text values contains the character with code zero, username ≤ 50, e-mail ≤ 100 and hash ≤ 256 characters, and neither username nor e-mail is taken; an unstorable value is reported first, then width, then uniqueness; an accepted row gets the next identity id and is appended, nothing else changes |
| `Store.InsertUserPreservesValid` | RbacMemberSystem.Api/Data/Configurations/UserConfiguration.cs:7-22 | an accepted user insert keeps ids, usernames and e-mails unique, all widths in bounds and every foreign key resolvable |
| `Store.InsertUserRole` | RbacMemberSystem.Api/Data/Configurations/UserRoleConfiguration.cs:8-19 | an assignment is accepted iff its (UserId, RoleId) pair is new and both ids name existing rows; then it is appended |
| `Store.InsertUserRolePreservesValid` | RbacMemberSystem.Api/Data/Configurations/UserRoleConfiguration.cs:8 | an accepted assignment keeps the composite key unique and the store valid |
| `Store.DeleteUser` | RbacMemberSystem.Api/Data/Configurations/UserRoleConfiguration.cs:11-14 | deleting a user removes its row and every assignment with that UserId, keeps every other user and assignment, and leaves Roles and the identity sequences alone |
| `Store.DeleteUserPreservesValid` | RbacMemberSystem.Api/Data/Configurations/UserRoleConfiguration.cs:11-14 | the cascade keeps the store valid, and afterwards no row and no assignment names the deleted user |
| `Store.DeleteRole` | RbacMemberSystem.Api/Data/Configurations/UserRoleConfiguration.cs:17-20 | deleting a role removes its row and every assignment with that RoleId, keeps every other role and assignment, and leaves Users alone |
| `Store.DeleteRolePreservesValid` | RbacMemberSystem.Api/Data/Configurations/UserRoleConfiguration.cs:17-20 | the cascade keeps the store valid, and afterwards no row and no assignment names the deleted role |
| `DataSeeder.Seed` | RbacMemberSystem.Api/Data/Seeds/DataSeeder.cs:8-22 | with any role present the store is unchanged; with none, exactly three roles Admin, Manager, User are added in that order with consecutive fresh ids; Users and UserRoles are never touched |
| `DataSeeder.SeedIdempotent` | RbacMemberSystem.Api/Data/Seeds/DataSeeder.cs:8-11 | seeding a seeded store, at any later time, changes nothing |
| `DataSeeder.SeedPreservesValid` | RbacMemberSystem.Api/Data/Seeds/DataSeeder.cs:14-22 | the seeded names are distinct and fit their columns, so the store stays valid |
| `DataSeeder.SeedProvidesDefaultRole` | RbacMemberSystem.Api/Data/Seeds/DataSeeder.cs:18 | after seeding an empty Roles table, the lookup of "User" finds the third seeded role |
| `Validators.ValidateRegister` | RbacMemberSystem.Api/Validators/Auth/RegisterDtoValidator.cs:7-20 | no failure iff username not blank with 3..30 characters, e-mail not blank and well formed, password not blank with at least 8 characters, and confirmation equal to password; a mismatch, a 31-character username and an empty username are reported; an 8-character password draws no password failure; an accepted username fits the 50-character column |
| `Validators.ValidateLogin` | RbacMemberSystem.Api/Validators/Auth/LoginDtoValidator.cs:7-11 | no failure iff neither username nor password is blank; empty fields are reported; a one-character password passes |
| `AuthService.Register` | RbacMemberSystem.Api/Services/AuthService.cs:9-54 | a username the database cannot store makes the first duplicate query throw, and an unstorable e-mail (with a free username) the second, with the store unchanged; a taken username, then a taken e-mail, yields null with the store unchanged (null iff one is taken and its query can run); on success exactly one active, never-updated user with the given username, e-mail and the hash of the password is appended with the next id; one assignment to the "User" role is added when that role exists and none otherwise; Roles are never changed |
| `AuthService.RegisterPreservesValid` | RbacMemberSystem.Api/Services/AuthService.cs:12-37 | from a valid store, registration leaves a valid store (unique ids, usernames, e-mails; widths; keys); it throws iff the username cannot be stored, or the names are free but the row cannot be stored or is too wide |
| `AuthService.RegisteredUserRoles` | RbacMemberSystem.Api/Services/AuthService.cs:40-50 | the registered user's role collection is exactly [its "User" assignment] when that role exists and empty otherwise |
| `AuthService.RegisterTwiceRejected` | RbacMemberSystem.Api/Services/AuthService.cs:12-16 | after a successful registration, any registration with the same username returns null and writes nothing |
| `JwtService.GenerateToken` | RbacMemberSystem.Api/Services/JwtService.cs:12-52 | the claims are NameIdentifier = id text, Name = username, Email = e-mail, then one Role claim per input role in order with duplicates, 3 + \|roles\| in all; issuer, audience and key come from the settings; the token's expiry agrees with what GetExpiryTime reports at the same clock reading |
| `JwtService.ReportedExpiryDrift` | RbacMemberSystem.Api/Services/JwtService.cs:40-52 | the expiry GetExpiryTime reports at a later clock reading lies exactly the elapsed time after the expiry of a token issued at the earlier reading, and never before it |
| `AuthController.Register` | RbacMemberSystem.Api/Controllers/AuthController.cs:11-45 | invalid input is 400 with the failures and the store unchanged, whatever the hasher; 409 iff valid and username or e-mail taken (and its duplicate query can run), store unchanged; never 401 or a login response; on a valid store, 200 iff the request is valid, its names are free, and its username, e-mail and hash can be stored and fit their columns; 200 carries the new row's id, username and e-mail, and the store gains that row plus the "User" assignment when that role exists; Roles never change; the store stays valid; on a valid store, a valid request is a server error iff its username cannot be stored, or its names are free and its e-mail or hash cannot be stored or is too wide; a server error writes nothing |
| `AuthController.Login` | RbacMemberSystem.Api/Controllers/AuthController.cs:49-72 | invalid input is 400 with the failures, whatever the service; otherwise 401 iff the service returns null, and 200 carries the service's response unchanged |
| `AuthController.FindFirst` | RbacMemberSystem.Api/Controllers/AuthController.cs:79-81 | returns nothing iff no claim has the type; otherwise the value of the earliest claim of that type |
| `AuthController.FindAll` | RbacMemberSystem.Api/Controllers/AuthController.cs:82 | the result is the values of the claims of the requested type, in claim order and with duplicates (the values of the order-preserving filter of the claims) |
| `AuthController.FindAllMembers` | RbacMemberSystem.Api/Controllers/AuthController.cs:82 | a value is returned iff some claim of the requested type carries it |
| `AuthController.ProfileRoundTrip` | RbacMemberSystem.Api/Controllers/AuthController.cs:79-82 | the profile read from the claims a token is issued with (followed by any other claims) is the id text, username, e-mail and the role list in issue order, with the later claims' roles appended |
| `AuthController.ProfileIdIdentifiesUser` | RbacMemberSystem.Api/Controllers/AuthController.cs:79 | two issued tokens show the same profile id iff they were issued for the same user id |
| `Scenarios.FirstRegistrationGetsUserRole` | RbacMemberSystem.Api/Program.cs:37-41 | on a freshly seeded database the first valid registration whose values the database can store and whose values fit the columns is 200 with id 1, and the new user holds exactly the "User" role (id 3) |
| `Scenarios.UnstorableUsernameIsServerError` | RbacMemberSystem.Api/Services/AuthService.cs:11-16 | a valid request whose username contains the character with code zero is answered 500 on any store, and nothing is written |
| `Scenarios.NulUsernameExample` | RbacMemberSystem.Api/Validators/Auth/RegisterDtoValidator.cs:7-20 | the request with username `"ab\0c"`, e-mail `"a@b.c"` and password `"password1"` passes validation and is answered 500 on an empty database |
| `Scenarios.RepeatedUsernameConflicts` | RbacMemberSystem.Api/Controllers/AuthController.cs:29-34 | after a registration answered 200, a valid registration with the same username is answered 409 and changes nothing |

## Left out

- Token signing and serialisation: the HMAC-SHA256 key, the signature and `WriteToken` are library code. A token is the `SecurityToken` record of the fields it is built from, and the token text in a login response is opaque.
- `PasswordHasher<User>`: salting, randomness and verification are library code. Its output for one call is the function parameter `hash`.
- The syntax rule of FluentValidation's `EmailAddress()`: it is library code, taken as the parameter `isEmail`.
- EF Core change tracking, async calls and transactions. The two `SaveChangesAsync` calls of registration are separate writes: if the second one failed, the saved user would remain, and the model keeps that behaviour.
- The race between the duplicate pre-checks and the insert, and every other concurrency concern.
- Start-up and hosting (`Program.cs` beyond the seeding call), `TestController.cs`, and all logging.
- Clock sampling: `now` is a parameter measured in whole minutes. `DateTime` range overflow in `AddMinutes` is not modelled. `GenerateToken` and `GetExpiryTime` read the clock separately; `JwtService.GenerateToken` relates them at a common instant and `JwtService.ReportedExpiryDrift` across two readings.
- Login and token validation: `AuthService.LoginAsync` is not part of this model (it is not defined in the code), so the controller takes it as the parameter `loginService`. Token validation and `[Authorize]` are not modelled either: no authentication scheme is configured in `Program.cs`. The profile action takes the principal's claims as given. The JWT handler's mapping of claim types to short names and back is not modelled, and claim types are an enumeration rather than URIs.
- Message texts of validation failures and error responses: a failure records only the field and the rule.
- `Validators.ValidateRegister`, `Validators.ValidateLogin`, `Store.InsertUser`: lengths count Unicode scalar values. C# counts UTF-16 code units and PostgreSQL counts characters, so strings outside the Basic Multilingual Plane are measured differently.
- `Store.InsertUser`: every value longer than its column is refused. PostgreSQL instead stores the value cut to the column width, without error, when all the excess characters are spaces; whether such a value even reaches the server uncut depends on the database driver, which is not part of this model. So an e-mail of 100 characters followed by spaces is a server error in the model (`AuthController.Register`) and may be saved in truncated form by the running system.
- `Store.InsertUser`: a refused insert leaves the identity sequence where it was. In PostgreSQL a failed insert still consumes an identity value, so later ids can skip; the model only promises fresh ids.
- 32-bit overflow of the `int` identity columns is not modelled: ids are unbounded.
- `Entities.NewUser`: the empty-string defaults of `Username`, `Email` and `PasswordHash` are in the constructor, but registration overwrites all three before saving, so no contract states them.
- The row order that `FirstOrDefaultAsync` sees without an `ORDER BY` is not fixed by the database. The model scans in insertion order; with unique role names the result is the same in every order (`Store.FirstRoleNamedIsTheRole`).
