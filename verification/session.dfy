/** How the tokens the authentication service issues fare at the gate once
    the user's password changes: the token version is the only revocation
    mechanism, so what a token carries decides whether it outlives the
    change. */
module SessionIntegrity {
  import opened Common
  import opened Schemas
  import opened Jwt
  import opened Auth
  import opened Guard

  /** A request carrying `token` in the lower-case header. */
  function BearerRequest(token: string): HeaderValue
  {
    Text(BearerPrefix + token)
  }

  lemma BearerRequestToken(token: string)
    ensures BearerToken(AuthorizationHeader(BearerRequest(token), Absent)) == Some(token)
  {
    assert (BearerPrefix + token)[..7] == BearerPrefix;
    assert (BearerPrefix + token)[7..] == token;
  }

  /** A login token for an active user of a verified school is admitted, and
      the identity is that user's. */
  lemma FreshLoginTokenAdmitted(token: string, verify: Verifier, users: map<Id, User>,
                                schools: map<Id, School>, uid: Id)
    requires uid in users && users[uid].isActive
    requires TenantVerified(schools, users[uid].tenantId)
    requires verify(token) == Some(LoginClaims(uid, users[uid]))
    ensures CanActivate(BearerRequest(token), Absent, verify, users, schools) == Ok(IdentityOf(uid, users[uid]))
  {
    BearerRequestToken(token);
  }

  /** After a password change (by `changePassword` or `resetPassword`) every
      login token issued before it is refused as no longer valid. */
  lemma LoginTokenRevokedByPasswordChange(token: string, verify: Verifier, users: map<Id, User>,
                                          schools: map<Id, School>, uid: Id, newPassword: string, now: int)
    requires uid in users && users[uid].isActive
    requires verify(token) == Some(LoginClaims(uid, users[uid]))
    ensures CanActivate(BearerRequest(token), Absent, verify,
                        users[uid := WithNewPassword(users[uid], newPassword, now)], schools)
            == Err(Error(Unauthorized, "Token is no longer valid"))
  {
    BearerRequestToken(token);
  }

  /** The session token `verifyOtp` issues carries no version, so the gate
      admits it before and after any password change alike. */
  lemma OtpSessionTokenSurvivesPasswordChange(token: string, verify: Verifier, users: map<Id, User>,
                                              schools: map<Id, School>, uid: Id, newPassword: string, now: int)
    requires uid in users && users[uid].isActive
    requires TenantVerified(schools, users[uid].tenantId)
    requires verify(token) == Some(OtpSessionClaims(uid, users[uid]))
    ensures CanActivate(BearerRequest(token), Absent, verify, users, schools).Ok?
    ensures CanActivate(BearerRequest(token), Absent, verify,
                        users[uid := WithNewPassword(users[uid], newPassword, now)], schools).Ok?
  {
    BearerRequestToken(token);
  }

  /** A reset-link payload names no tenant and carries the version, so the
      gate treats it like a login token; it stops working at the gate after
      the reset it was issued for, although the reset endpoint accepts it
      again. */
  lemma ResetLinkAfterReset(token: string, verify: Verifier, users: map<Id, User>,
                            schools: map<Id, School>, uid: Id, newPassword: string, now: int)
    requires uid in users && users[uid].isActive
    requires verify(token) == Some(ResetClaims(uid, users[uid]))
    ensures var after := users[uid := WithNewPassword(users[uid], newPassword, now)];
      && CanActivate(BearerRequest(token), Absent, verify, after, schools).Err?
      && ResetTarget(verify(token), after) == Ok(uid)
  {
    BearerRequestToken(token);
  }
}
