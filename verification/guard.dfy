/** The authentication gate in front of every protected route
    (`JwtAuthGuard.canActivate`): bearer header, token verification, active
    user, token version, verified tenant; on success the identity attached to
    the request. */
module Guard {
  import opened Common
  import opened Text
  import opened Schemas
  import opened Jwt

  /** A request header as the framework hands it over: absent, a string, or
      some other (truthy) value such as a list of strings. */
  datatype HeaderValue = Absent | Text(s: string) | NonString

  predicate Truthy(h: HeaderValue)
  {
    match h
    case Absent => false
    case Text(s) => s != ""
    case NonString => true
  }

  /** `headers['authorization'] || headers['Authorization']`. */
  function AuthorizationHeader(lower: HeaderValue, upper: HeaderValue): (h: HeaderValue)
    ensures Truthy(lower) ==> h == lower
    ensures !Truthy(lower) ==> h == upper
  {
    if Truthy(lower) then lower else upper
  }

  const BearerPrefix: string := "Bearer "

  /** The token after the `Bearer ` prefix, or `None` when the header is
      missing, empty, not a string, or lacks the prefix. */
  function BearerToken(h: HeaderValue): (t: Option<string>)
    ensures t.Some? <==> h.Text? && StartsWith(h.s, BearerPrefix)
    ensures t.Some? ==> h.s == BearerPrefix + t.value
  {
    if h.Text? && h.s != "" && StartsWith(h.s, BearerPrefix) then
      assert h.s == h.s[..7] + h.s[7..];
      Some(h.s[7..])
    else None
  }

  /** `request.user` after a successful check. */
  datatype Identity = Identity(id: Id, email: string, role: UserRole, tenantId: Id, tokenVersion: int)

  /** The user is loaded as a full document, so Mongoose fills a missing
      `tokenVersion` with its schema default 0. */
  function IdentityOf(id: Id, u: User): Identity
  {
    Identity(id, u.email, u.role, u.tenantId, TokenVersionOrZero(u))
  }

  /** `typeof payload.tokenVersion === 'number' && payload.tokenVersion !==
      user.tokenVersion`: a payload without a version is never stale. The
      user is a full document, so a stored user without the field reads as
      version 0. */
  predicate VersionMismatch(c: Claims, u: User)
  {
    c.tokenVersion.Some? && c.tokenVersion.value != TokenVersionOrZero(u)
  }

  /** The user the payload names, active. */
  predicate ActiveSubject(c: Claims, users: map<Id, User>)
  {
    c.sub.Some? && c.sub.value in users && users[c.sub.value].isActive
  }

  /** `if (user.tenantId)`: only a non-empty tenant id is looked up. */
  predicate TenantOk(u: User, schools: map<Id, School>)
  {
    u.tenantId == "" || (u.tenantId in schools && schools[u.tenantId].isVerified)
  }

  /** The gate, check by check, in the order of the source. */
  function CanActivate(lower: HeaderValue, upper: HeaderValue, verify: Verifier,
                       users: map<Id, User>, schools: map<Id, School>): (r: Result<Identity>)
  {
    var token := BearerToken(AuthorizationHeader(lower, upper));
    if token.None? then Err(Error(Unauthorized, "Missing authentication token"))
    else
      var payload := verify(token.value);
      if payload.None? then Err(Error(Unauthorized, "Invalid or expired authentication token"))
      else if !ActiveSubject(payload.value, users) then Err(Error(Unauthorized, "User not found or inactive"))
      else
        var id := payload.value.sub.value;
        var user := users[id];
        if VersionMismatch(payload.value, user) then Err(Error(Unauthorized, "Token is no longer valid"))
        else if user.tenantId != "" && user.tenantId !in schools then Err(Error(Forbidden, "Tenant not found"))
        else if user.tenantId != "" && !schools[user.tenantId].isVerified then Err(Error(Forbidden, "Tenant is not verified"))
        else Ok(IdentityOf(id, user))
  }

  /** The gate admits a request exactly when every check passes, and the
      identity it attaches is read from the stored user, not from the token. */
  lemma CanActivateAdmits(lower: HeaderValue, upper: HeaderValue, verify: Verifier,
                          users: map<Id, User>, schools: map<Id, School>)
    ensures var r := CanActivate(lower, upper, verify, users, schools);
      var token := BearerToken(AuthorizationHeader(lower, upper));
      r.Ok? <==>
        && token.Some?
        && verify(token.value).Some?
        && ActiveSubject(verify(token.value).value, users)
        && !VersionMismatch(verify(token.value).value, users[verify(token.value).value.sub.value])
        && TenantOk(users[verify(token.value).value.sub.value], schools)
    ensures var r := CanActivate(lower, upper, verify, users, schools);
      var token := BearerToken(AuthorizationHeader(lower, upper));
      r.Ok? ==>
        var id := verify(token.value).value.sub.value;
        r.value == IdentityOf(id, users[id]) && users[id].isActive
  {
  }

  /** Authentication failures come first: a refusal for the tenant happens
      only when the token is present, verifies, names an active user and is
      not stale; every other refusal is `Unauthorized`. */
  lemma UnauthorizedBeforeForbidden(lower: HeaderValue, upper: HeaderValue, verify: Verifier,
                                    users: map<Id, User>, schools: map<Id, School>)
    ensures var r := CanActivate(lower, upper, verify, users, schools);
      r.Err? ==> r.error.kind == Unauthorized || r.error.kind == Forbidden
    ensures var r := CanActivate(lower, upper, verify, users, schools);
      var token := BearerToken(AuthorizationHeader(lower, upper));
      r.Err? && r.error.kind == Forbidden ==>
        && token.Some?
        && verify(token.value).Some?
        && ActiveSubject(verify(token.value).value, users)
        && !VersionMismatch(verify(token.value).value, users[verify(token.value).value.sub.value])
        && !TenantOk(users[verify(token.value).value.sub.value], schools)
  {
  }

  /** The header check alone: a request without `Bearer ` in a string header
      (either spelling) is refused before the token is looked at. */
  lemma MissingHeaderRefused(lower: HeaderValue, upper: HeaderValue, verify: Verifier,
                             users: map<Id, User>, schools: map<Id, School>)
    requires !(lower.Text? && StartsWith(lower.s, BearerPrefix))
    requires Truthy(lower) || !(upper.Text? && StartsWith(upper.s, BearerPrefix))
    ensures CanActivate(lower, upper, verify, users, schools) == Err(Error(Unauthorized, "Missing authentication token"))
  {
  }
}
