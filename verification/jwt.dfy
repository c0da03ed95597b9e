/** Signed tokens. Signing and verification (secrets, algorithms, expiry
    strings) are not modelled: a service that signs a payload is modelled as
    returning the payload, and verification is a partial function from the
    token text to the payload it carries. */
module Jwt {
  import opened Common
  import opened Schemas

  /** A token payload. A claim the issuer did not set is `None`. */
  datatype Claims = Claims(
    sub: Option<Id>,
    email: Option<string>,
    role: Option<UserRole>,
    tenantId: Option<Id>,
    tokenVersion: Option<int>,
    purpose: Option<string>)

  /** `jwtService.verifyAsync(token)`: the payload when the signature and the
      expiry check out, `None` when verification throws. */
  type Verifier = string -> Option<Claims>
}
