/** `JwtService`: the claim list and the expiry of an access token. The
    signing key, the HMAC-SHA256 signature and the compact serialisation are
    the token library's; a token is modelled by the fields it is built from. */
module JwtService {
  import Entities
  import opened Decimal

  /** The `JwtSettings` options record. */
  datatype JwtSettings = JwtSettings(secret: string, issuer: string, audience: string, expiryMinutes: int)

  /** The four `ClaimTypes` URIs the service uses. */
  datatype ClaimType = NameIdentifier | Name | Email | Role

  datatype Claim = Claim(claimType: ClaimType, value: string)

  /** The `JwtSecurityToken` before it is written out: issuer, audience,
      claims, expiry, and the key it is signed with. */
  datatype SecurityToken = SecurityToken(
    issuer: string,
    audience: string,
    claims: seq<Claim>,
    expires: Entities.Instant,
    signingKey: string)

  /** The identity claims of a user: its id as decimal text, its name and its e-mail. */
  function IdentityClaims(user: Entities.User): seq<Claim> {
    [Claim(NameIdentifier, IntToString(user.id)), Claim(Name, user.username), Claim(Email, user.email)]
  }

  /** One role claim per role name, position for position. */
  function RoleClaims(roles: seq<string>): (cs: seq<Claim>)
    ensures |cs| == |roles|
  {
    seq(|roles|, i requires 0 <= i < |roles| => Claim(Role, roles[i]))
  }

  /** `GenerateToken(user, roles)` with the clock reading `now`: the claim
      list is the three identity claims followed by the `foreach` over
      `roles`, which keeps their order and their duplicates. */
  method GenerateToken(settings: JwtSettings, user: Entities.User, roles: seq<string>, now: Entities.Instant) returns (token: SecurityToken)
    ensures |token.claims| == 3 + |roles|
    ensures token.claims[0] == Claim(NameIdentifier, IntToString(user.id))
    ensures token.claims[1] == Claim(Name, user.username)
    ensures token.claims[2] == Claim(Email, user.email)
    ensures forall i | 0 <= i < |roles| :: token.claims[3 + i] == Claim(Role, roles[i])
    ensures token.claims == IdentityClaims(user) + RoleClaims(roles)
    ensures token.issuer == settings.issuer && token.audience == settings.audience
    ensures token.expires == now + settings.expiryMinutes
    ensures token.expires == GetExpiryTime(settings, now)
    ensures token.signingKey == settings.secret
  {
    var claims := IdentityClaims(user);
    var i := 0;
    while i < |roles|
      invariant 0 <= i <= |roles|
      invariant claims == IdentityClaims(user) + RoleClaims(roles[..i])
    {
      assert RoleClaims(roles[..i + 1]) == RoleClaims(roles[..i]) + [Claim(Role, roles[i])];
      claims := claims + [Claim(Role, roles[i])];
      i := i + 1;
    }
    assert roles[..i] == roles;
    token := SecurityToken(settings.issuer, settings.audience, claims, now + settings.expiryMinutes, settings.secret);
  }

  /** `GetExpiryTime()` with the clock reading `now`; it reads the settings
      and nothing else. */
  function GetExpiryTime(settings: JwtSettings, now: Entities.Instant): (expires: Entities.Instant)
    ensures expires - now == settings.expiryMinutes
  {
    now + settings.expiryMinutes
  }

  /** `GenerateToken` and `GetExpiryTime` each read the clock. The expiry
      that `GetExpiryTime` reports at a later reading lies exactly the time
      that passed between the two readings after the expiry of a token
      issued at the earlier one, whatever the settings. */
  lemma ReportedExpiryDrift(settings: JwtSettings, token: SecurityToken, issuedAt: Entities.Instant, reportedAt: Entities.Instant)
    requires token.expires == GetExpiryTime(settings, issuedAt)
    ensures GetExpiryTime(settings, reportedAt) - token.expires == reportedAt - issuedAt
    ensures issuedAt <= reportedAt ==> token.expires <= GetExpiryTime(settings, reportedAt)
  {
  }
}
