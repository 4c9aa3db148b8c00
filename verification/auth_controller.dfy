/** `AuthController`: the mapping from a request to an HTTP outcome. The
    login service is not part of this model and enters as the parameter
    `loginService`; the profile action reads the caller's claims. */
module AuthController {
  import opened Results
  import Entities
  import Store
  import opened Dtos
  import opened Validators
  import AuthService
  import opened JwtService
  import opened Decimal
  import Seqs

  const RegisterSuccessMessage: string := "註冊成功"

  /** The action results the endpoints produce. `InternalServerError` is
      what an exception escaping an action becomes. */
  datatype ActionResult =
    | BadRequest(errors: seq<ValidationFailure>)
    | Conflict
    | Unauthorized
    | InternalServerError
    | RegisterOk(registered: AuthResponseDto)
    | LoginOk(session: LoginResponseDto)

  /** The body of the profile response; a missing claim reads as `None` (`null`). */
  datatype Profile = Profile(userId: Option<string>, username: Option<string>, email: Option<string>, roles: seq<string>)

  /** `POST register`: validate, then register, then map the service's
      answer onto an HTTP outcome. */
  function Register(s: Store.Store, dto: RegisterDto, isEmail: string -> bool, hash: string -> string, now: Entities.Instant)
    : (r: (Store.Store, ActionResult))
    // an invalid request is answered 400 with the failures and never reaches the service
    ensures r.1.BadRequest? <==> !RegisterValid(dto, isEmail)
    ensures !RegisterValid(dto, isEmail) ==> r == (s, BadRequest(ValidateRegister(dto, isEmail)))
    // a valid request that names a taken username or e-mail gets 409 and
    // writes nothing (a name the database cannot store is never found taken:
    // its query throws)
    ensures r.1 == Conflict <==>
      && RegisterValid(dto, isEmail) && Store.Storable(dto.username)
      && (Store.AnyUsername(s, dto.username) || (Store.Storable(dto.email) && Store.AnyEmail(s, dto.email)))
    ensures r.1 == Conflict ==> r.0 == s
    // success: 200 with the new row's id, username and e-mail
    ensures r.1.RegisterOk? ==>
      && r.0.users == s.users + [Entities.User(r.1.registered.id, dto.username, dto.email, hash(dto.password), true, now, None)]
      && r.1.registered == AuthResponseDto(s.nextUserId, dto.username, dto.email, RegisterSuccessMessage)
    // success: the new user holds the "User" role when the store has one
    ensures r.1.RegisterOk? ==>
      match Store.FirstRoleNamed(s.roles, AuthService.DefaultRoleName)
      case Some(role) => r.0.userRoles == s.userRoles + [Entities.UserRole(s.nextUserId, role.id)]
      case None => r.0.userRoles == s.userRoles
    // the register action answers none of the login outcomes and never
    // changes the Roles table
    ensures !r.1.Unauthorized? && !r.1.LoginOk?
    ensures r.0.roles == s.roles
    // the store keeps its constraints; on a valid store a valid request
    // succeeds exactly when its names are free and its row can be stored and
    // fits the columns, and otherwise the only server errors are a name the
    // database cannot store and a row it cannot hold; neither writes anything
    ensures Store.Valid(s) ==> Store.Valid(r.0)
    ensures Store.Valid(s) ==>
      (r.1.RegisterOk? <==>
        && RegisterValid(dto, isEmail)
        && !Store.AnyUsername(s, dto.username) && !Store.AnyEmail(s, dto.email)
        && Store.Storable(dto.username) && Store.Storable(dto.email) && Store.Storable(hash(dto.password))
        && |dto.email| <= Store.MaxEmailLength && |hash(dto.password)| <= Store.MaxPasswordHashLength)
    ensures Store.Valid(s) && RegisterValid(dto, isEmail) ==>
      (r.1 == InternalServerError <==>
        || !Store.Storable(dto.username)
        || (&& !Store.AnyUsername(s, dto.username) && !Store.AnyEmail(s, dto.email)
            && (|| !Store.Storable(dto.email) || !Store.Storable(hash(dto.password))
                || |dto.email| > Store.MaxEmailLength || |hash(dto.password)| > Store.MaxPasswordHashLength)))
    ensures Store.Valid(s) && r.1 == InternalServerError ==> r.0 == s
  {
    if !RegisterValid(dto, isEmail) then (s, BadRequest(ValidateRegister(dto, isEmail)))
    else
      var (s', result) := AuthService.Register(s, dto, hash, now);
      assert Store.Valid(s) ==> Store.Valid(s') by {
        if Store.Valid(s) { AuthService.RegisterPreservesValid(s, dto, hash, now); }
      }
      RegisterOutcome(s', result)
  }

  function RegisterOutcome(s: Store.Store, result: AuthService.Completion<Option<Entities.User>>): (Store.Store, ActionResult) {
    match result
    case Faulted(_) => (s, InternalServerError)
    case Completed(None) => (s, Conflict)
    case Completed(Some(user)) => (s, RegisterOk(AuthResponseDto(user.id, user.username, user.email, RegisterSuccessMessage)))
  }

  /** `POST login`: validate, then ask the login service; `null` is 401,
      anything else is returned unchanged with 200. */
  function Login(dto: LoginDto, loginService: LoginDto -> Option<LoginResponseDto>): (r: ActionResult)
    ensures r.BadRequest? <==> !LoginValid(dto)
    ensures !LoginValid(dto) ==> r == BadRequest(ValidateLogin(dto))
    ensures r == Unauthorized <==> LoginValid(dto) && loginService(dto).None?
    ensures r.LoginOk? ==> loginService(dto) == Some(r.session)
    ensures LoginValid(dto) && loginService(dto).Some? ==> r.LoginOk?
  {
    if !LoginValid(dto) then BadRequest(ValidateLogin(dto))
    else match loginService(dto)
      case None => Unauthorized
      case Some(response) => LoginOk(response)
  }

  /** `ClaimsPrincipal.FindFirst(type)?.Value`. */
  function FindFirst(claims: seq<Claim>, t: ClaimType): (r: Option<string>)
    ensures r.None? <==> forall c | c in claims :: c.claimType != t
    ensures r.Some? ==> exists i | 0 <= i < |claims| :: claims[i] == Claim(t, r.value)
                                                     && forall j | 0 <= j < i :: claims[j].claimType != t
  {
    if claims == [] then None
    else if claims[0].claimType == t then Some(claims[0].value)
    else
      var r := FindFirst(claims[1..], t);
      if r.Some? then
        var i :| 0 <= i < |claims[1..]| && claims[1..][i] == Claim(t, r.value)
                 && forall j | 0 <= j < i :: claims[1..][j].claimType != t;
        assert claims[i + 1] == Claim(t, r.value);
        assert forall j | 0 <= j < i + 1 :: claims[j].claimType != t by {
          forall j | 0 <= j < i + 1 ensures claims[j].claimType != t {
            if j > 0 { assert claims[j] == claims[1..][j - 1]; }
          }
        }
        r
      else r
  }

  /** Whether a claim has type `t`. */
  function OfType(t: ClaimType): Claim -> bool {
    (c: Claim) => c.claimType == t
  }

  /** The values of a claim list, position for position. */
  function Values(claims: seq<Claim>): (vs: seq<string>)
    ensures |vs| == |claims|
  {
    seq(|claims|, i requires 0 <= i < |claims| => claims[i].value)
  }

  /** `FindAll(type).Select(c => c.Value)`: the values of every claim of
      type `t`, in claim order, duplicates included. */
  function FindAll(claims: seq<Claim>, t: ClaimType): (r: seq<string>)
    ensures r == Values(Seqs.Filter(claims, OfType(t)))
  {
    if claims == [] then []
    else
      var rest := FindAll(claims[1..], t);
      var kept := Seqs.Filter(claims[1..], OfType(t));
      if claims[0].claimType == t then
        assert Seqs.Filter(claims, OfType(t)) == [claims[0]] + kept;
        assert Values([claims[0]] + kept) == [claims[0].value] + Values(kept);
        [claims[0].value] + rest
      else
        assert Seqs.Filter(claims, OfType(t)) == kept;
        rest
  }

  /** A value is found for type `t` exactly when some claim of that type
      carries it. */
  lemma FindAllMembers(claims: seq<Claim>, t: ClaimType, v: string)
    ensures v in FindAll(claims, t) <==> Claim(t, v) in claims
  {
    var kept := Seqs.Filter(claims, OfType(t));
    if v in FindAll(claims, t) {
      var i :| 0 <= i < |kept| && Values(kept)[i] == v;
      assert kept[i] in kept;
      assert kept[i] == Claim(t, v);
    }
    if Claim(t, v) in claims {
      assert OfType(t)(Claim(t, v));
      var i :| 0 <= i < |kept| && kept[i] == Claim(t, v);
      assert Values(kept)[i] == v;
    }
  }

  /** `GET profile`: the first id, name and e-mail claims and all role claims. */
  function GetProfile(claims: seq<Claim>): Profile {
    Profile(FindFirst(claims, NameIdentifier), FindFirst(claims, Name), FindFirst(claims, Email), FindAll(claims, ClaimType.Role))
  }

  lemma ValuesAppend(a: seq<Claim>, b: seq<Claim>)
    ensures Values(a + b) == Values(a) + Values(b)
  {
  }

  lemma FindAllAppend(a: seq<Claim>, b: seq<Claim>, t: ClaimType)
    ensures FindAll(a + b, t) == FindAll(a, t) + FindAll(b, t)
  {
    Seqs.FilterConcat(a, b, OfType(t));
    ValuesAppend(Seqs.Filter(a, OfType(t)), Seqs.Filter(b, OfType(t)));
  }

  lemma {:induction false} FindAllRoleClaims(roles: seq<string>)
    ensures FindAll(RoleClaims(roles), ClaimType.Role) == roles
  {
    if roles != [] {
      assert RoleClaims(roles)[1..] == RoleClaims(roles[1..]);
      FindAllRoleClaims(roles[1..]);
    }
  }

  lemma FindCons(c: Claim, rest: seq<Claim>, t: ClaimType)
    ensures FindFirst([c] + rest, t) == if c.claimType == t then Some(c.value) else FindFirst(rest, t)
    ensures FindAll([c] + rest, t) == (if c.claimType == t then [c.value] else []) + FindAll(rest, t)
  {
    assert ([c] + rest)[1..] == rest;
  }

  /** Three identity claims at the head of a claim list are the ones found
      first, and they contribute no role. */
  lemma IdentityClaimsFoundFirst(id: string, name: string, email: string, tail: seq<Claim>)
    ensures var claims := [Claim(NameIdentifier, id)] + ([Claim(Name, name)] + ([Claim(Email, email)] + tail));
      && FindFirst(claims, NameIdentifier) == Some(id)
      && FindFirst(claims, Name) == Some(name)
      && FindFirst(claims, Email) == Some(email)
      && FindAll(claims, ClaimType.Role) == FindAll(tail, ClaimType.Role)
  {
    var c0, c1, c2 := Claim(NameIdentifier, id), Claim(Name, name), Claim(Email, email);
    var t2 := [c2] + tail;
    var t1 := [c1] + t2;
    FindCons(c0, t1, NameIdentifier);
    FindCons(c0, t1, Name);
    FindCons(c1, t2, Name);
    FindCons(c0, t1, Email);
    FindCons(c1, t2, Email);
    FindCons(c2, tail, Email);
    FindCons(c0, t1, ClaimType.Role);
    FindCons(c1, t2, ClaimType.Role);
    FindCons(c2, tail, ClaimType.Role);
  }

  lemma IssuedClaimsShape(user: Entities.User, tail: seq<Claim>)
    ensures IdentityClaims(user) + tail ==
      [Claim(NameIdentifier, IntToString(user.id))] + ([Claim(Name, user.username)] + ([Claim(Email, user.email)] + tail))
  {
  }

  /** The profile read back from a token's claims is what the token was
      issued for: the id as decimal text, the username, the e-mail, and the
      role list in the order given, duplicates included. Any claims the
      principal carries after the issued ones only add their role values at
      the end. */
  lemma {:induction false} ProfileRoundTrip(user: Entities.User, roles: seq<string>, extra: seq<Claim>)
    ensures GetProfile(IdentityClaims(user) + RoleClaims(roles) + extra) ==
      Profile(Some(IntToString(user.id)), Some(user.username), Some(user.email), roles + FindAll(extra, ClaimType.Role))
  {
    var tail := RoleClaims(roles) + extra;
    Seqs.ConcatAssoc(IdentityClaims(user), RoleClaims(roles), extra);
    ProfileOfIdentityClaims(user, tail);
    RoleClaimsThenOthers(roles, extra);
  }

  /** Claims after the identity claims only contribute their roles. */
  lemma ProfileOfIdentityClaims(user: Entities.User, tail: seq<Claim>)
    ensures GetProfile(IdentityClaims(user) + tail) ==
      Profile(Some(IntToString(user.id)), Some(user.username), Some(user.email), FindAll(tail, ClaimType.Role))
  {
    IssuedClaimsShape(user, tail);
    IdentityClaimsFoundFirst(IntToString(user.id), user.username, user.email, tail);
  }

  /** The roles of issued role claims come first, then any later ones. */
  lemma RoleClaimsThenOthers(roles: seq<string>, extra: seq<Claim>)
    ensures FindAll(RoleClaims(roles) + extra, ClaimType.Role) == roles + FindAll(extra, ClaimType.Role)
  {
    FindAllAppend(RoleClaims(roles), extra, ClaimType.Role);
    FindAllRoleClaims(roles);
  }

  /** The id claim identifies the user: the profile of two tokens shows the
      same id text only when they were issued for the same id. */
  lemma ProfileIdIdentifiesUser(a: Entities.User, b: Entities.User, rolesA: seq<string>, rolesB: seq<string>)
    ensures GetProfile(IdentityClaims(a) + RoleClaims(rolesA)).userId == GetProfile(IdentityClaims(b) + RoleClaims(rolesB)).userId
            <==> a.id == b.id
  {
    ProfileRoundTrip(a, rolesA, []);
    ProfileRoundTrip(b, rolesB, []);
    assert IdentityClaims(a) + RoleClaims(rolesA) + [] == IdentityClaims(a) + RoleClaims(rolesA);
    assert IdentityClaims(b) + RoleClaims(rolesB) + [] == IdentityClaims(b) + RoleClaims(rolesB);
    IntToStringInjective(a.id, b.id);
  }
}
