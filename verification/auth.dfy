/** Registration, e-mail OTP verification with resend throttling, login and
    the password flows of `AuthService`. The service keeps two in-memory maps
    keyed by e-mail (`otpStore`, `resendAttempts`) beside the user and school
    collections; the clock is the parameter `now` (milliseconds), a mail
    dispatch is the boolean `mailOk`, and the random OTP draw is the parameter
    `otp`. */
module Auth {
  import opened Common
  import opened Text
  import opened Schemas
  import opened Jwt
  import opened RegisterValidation

  const OtpTtlMs: int := 600000          // 10 * 60 * 1000
  const MaxResendAttempts: int := 3
  const ResendCooldownMs: int := 900000  // 15 * 60 * 1000
  const ResetPurpose: string := "password-reset"
  const ForgotPasswordMessage: string := "If the email exists, a reset link has been sent."

  // Messages of the errors and results the service returns.
  const OtpInvalidOrExpired: string := "Invalid or expired OTP."
  const OtpMismatch: string := "Invalid OTP."
  const ResetTokenInvalidOrExpired: string := "Invalid or expired token"
  const ResetTokenInvalid: string := "Invalid token"
  const SchoolNameConflict: string := "A school with this name is already registered."
  const AdminEmailConflict: string := "A user with this email already exists."
  const RegisterMailFailed: string := "Could not send verification email. Please try again."
  const SchoolNotFoundForEmail: string := "School not found for this email."
  const UserNotFoundForEmail: string := "User with this email not found."
  const SchoolAlreadyVerified: string := "School is already verified."
  const TooManyResendsPrefix: string := "Too many resend attempts. Please try again in "
  const OtpResent: string := "New verification code has been sent to your email."
  const ResendMailFailed: string := "Failed to send verification code. Please try again."
  const InvalidCredentials: string := "Invalid credentials"
  const AccountNotVerified: string := "Account is not verified"
  const PasswordReset: string := "Password has been reset successfully."
  const UserNotFound: string := "User not found"
  const CurrentPasswordIncorrect: string := "Current password is incorrect"
  const PasswordUpdated: string := "Password updated successfully."

  datatype OtpEntry = OtpEntry(code: string, expiresAt: int)

  datatype ResendAttempt = ResendAttempt(count: int, lastAttempt: int)

  // ---------------------------------------------------------------------------
  // OTP codes
  // ---------------------------------------------------------------------------

  predicate IsOtpCode(code: string) { |code| == 6 && AllDigits(code) }

  /** `generateOtp`: `Math.floor(100000 + Math.random() * 900000).toString()`,
      with the draw `n` taken as a parameter. */
  function OtpCode(n: nat): (code: string)
    requires 100000 <= n <= 999999
    ensures IsOtpCode(code) && code[0] != '0'
  {
    assert Pow10(5) == 100000 && Pow10(6) == 1000000;
    DecimalStringLength(n, 6);
    DecimalString(n)
  }

  /** Different draws give different codes. */
  lemma OtpCodeInjective(n: nat, m: nat)
    requires 100000 <= n <= 999999 && 100000 <= m <= 999999
    requires n != m
    ensures OtpCode(n) != OtpCode(m)
  {
    if OtpCode(n) == OtpCode(m) {
      DecimalStringInjective(n, m);
    }
  }

  /** The entry `sendOtpEmail` stores: the code and an expiry ten minutes on. */
  function IssueOtp(otp: nat, now: int): (e: OtpEntry)
    requires 100000 <= otp <= 999999
    ensures IsOtpCode(e.code) && e.expiresAt - now == OtpTtlMs
  {
    OtpEntry(OtpCode(otp), now + OtpTtlMs)
  }

  /** The two checks `verifyOtp` makes on the stored entry, in order; `None`
      when both pass. */
  function CheckOtp(entry: Option<OtpEntry>, code: string, now: int): (r: Option<Error>)
    ensures r.Some? ==> r.value.kind == BadRequest
  {
    if entry.None? || entry.value.expiresAt < now then
      Some(Error(BadRequest, OtpInvalidOrExpired))
    else if entry.value.code != code then
      Some(Error(BadRequest, OtpMismatch))
    else
      None
  }

  /** An issued code is accepted exactly up to and including its expiry
      instant (the comparison is a strict `<`), and only the code itself. */
  lemma OtpAcceptedWithinWindow(otp: nat, issuedAt: int, code: string, now: int)
    requires 100000 <= otp <= 999999
    ensures CheckOtp(Some(IssueOtp(otp, issuedAt)), code, now).None?
        <==> now <= issuedAt + OtpTtlMs && code == OtpCode(otp)
    ensures now > issuedAt + OtpTtlMs ==>
        CheckOtp(Some(IssueOtp(otp, issuedAt)), code, now) == Some(Error(BadRequest, OtpInvalidOrExpired))
  {
  }

  /** Issuing a new code overwrites the entry: the earlier code is rejected
      from then on, at any time. */
  lemma StaleOtpRejected(store: map<string, OtpEntry>, email: string,
                         first: nat, t1: int, second: nat, t2: int, now: int)
    requires 100000 <= first <= 999999 && 100000 <= second <= 999999
    requires first != second
    ensures CheckOtp(Lookup(store[email := IssueOtp(first, t1)][email := IssueOtp(second, t2)], email),
                     OtpCode(first), now).Some?
  {
    OtpCodeInjective(first, second);
  }

  // ---------------------------------------------------------------------------
  // Resend throttling
  // ---------------------------------------------------------------------------

  datatype ThrottleDecision = Allow(next: ResendAttempt) | Deny(minutesLeft: nat)

  /** `Math.ceil(ms / 60000)`. */
  function CeilMinutes(ms: int): (m: int)
    ensures 60000 * (m - 1) < ms <= 60000 * m
  {
    -((-ms) / 60000)
  }

  /** The throttle of `resendOtp`: a missing record reads as `{count: 0,
      lastAttempt: 0}`; the cooldown has expired when more than 15 minutes
      passed since the last attempt. */
  function Throttle(prev: Option<ResendAttempt>, now: int): (d: ThrottleDecision)
    ensures d.Allow? ==> d.next.lastAttempt == now
    ensures d.Allow? ==>
      d.next.count == if prev.Some? && now - prev.value.lastAttempt <= ResendCooldownMs then prev.value.count + 1 else 1
  {
    var a := if prev.Some? then prev.value else ResendAttempt(0, 0);
    var cooldownExpired := now - a.lastAttempt > ResendCooldownMs;
    if a.count >= MaxResendAttempts && !cooldownExpired then
      Deny(CeilMinutes(a.lastAttempt + ResendCooldownMs - now))
    else
      Allow(ResendAttempt((if cooldownExpired then 0 else a.count) + 1, now))
  }

  /** A resend is refused exactly when three attempts are on record and the
      last one is at most 15 minutes old; the reported wait is the remaining
      cooldown rounded up to minutes, at most 15 when the clock has not gone
      backwards. */
  lemma ThrottleDenial(prev: Option<ResendAttempt>, now: int)
    ensures Throttle(prev, now).Deny? <==>
      prev.Some? && prev.value.count >= MaxResendAttempts && now - prev.value.lastAttempt <= ResendCooldownMs
    ensures Throttle(prev, now).Deny? ==>
      var remaining := prev.value.lastAttempt + ResendCooldownMs - now;
      60000 * (Throttle(prev, now).minutesLeft - 1) < remaining <= 60000 * Throttle(prev, now).minutesLeft
    ensures Throttle(prev, now).Deny? && now >= prev.value.lastAttempt ==> Throttle(prev, now).minutesLeft <= 15
  {
  }

  /** A stored count stays between 1 and 3. */
  lemma ThrottleCountInRange(prev: Option<ResendAttempt>, now: int)
    requires prev.Some? ==> 1 <= prev.value.count <= MaxResendAttempts
    ensures Throttle(prev, now).Allow? ==> 1 <= Throttle(prev, now).next.count <= MaxResendAttempts
  {
  }

  /** Once the cooldown has run out the count starts again at one. */
  lemma ThrottleResetsAfterCooldown(prev: ResendAttempt, now: int)
    requires now - prev.lastAttempt > ResendCooldownMs
    ensures Throttle(Some(prev), now) == Allow(ResendAttempt(1, now))
  {
  }

  /** Three resends, each within 15 minutes of the previous one, are allowed;
      a fourth within 15 minutes of the third is refused. */
  lemma FourthResendRefused(t1: int, t2: int, t3: int, t4: int)
    requires t2 - t1 <= ResendCooldownMs && t3 - t2 <= ResendCooldownMs && t4 - t3 <= ResendCooldownMs
    ensures Throttle(None, t1).Allow?
    ensures Throttle(Some(Throttle(None, t1).next), t2).Allow?
    ensures Throttle(Some(Throttle(Some(Throttle(None, t1).next), t2).next), t3)
            == Allow(ResendAttempt(3, t3))
    ensures Throttle(Some(ResendAttempt(3, t3)), t4).Deny?
  {
  }

  // ---------------------------------------------------------------------------
  // Records the service writes and payloads it signs
  // ---------------------------------------------------------------------------

  /** The school `register` creates: unverified, no profile yet. */
  function NewSchool(dto: RegisterSchoolDto): (s: School)
    ensures !s.isVerified && s.schoolName == dto.schoolName && s.adminEmail == dto.adminEmail
  {
    School(dto.schoolName, dto.schoolType, dto.curricula, dto.adminEmail, dto.gesCode,
           dto.digitalAddress, dto.region, dto.city, false,
           None, None, None, None, None, map[], None, false)
  }

  /** The administrator fields the user schema requires to be non-empty. */
  predicate AdminDocumentValid(dto: RegisterSchoolDto)
  {
    dto.adminFirstName != "" && dto.adminLastName != "" && dto.adminEmail != "" && dto.adminPhone != ""
  }

  /** The founding administrator `register` creates for school `schoolId`. */
  function NewAdmin(dto: RegisterSchoolDto, schoolId: Id): (u: User)
    ensures u.role == SuperAdmin && u.isActive && u.tenantId == schoolId
    ensures schoolId != "" ==> (UserDocumentValid(u) <==> AdminDocumentValid(dto))
    ensures u.email == dto.adminEmail && u.tokenVersion == Some(0) && Compare(dto.password, u.password)
  {
    User(dto.adminFirstName, dto.adminLastName, dto.adminEmail, dto.adminPhone,
         Hash(dto.password), SuperAdmin, schoolId, true, Some(0), None)
  }

  /** The user after a password change: new digest, change time stamped, and
      the token version one above the old one (missing counts as 0). */
  function WithNewPassword(u: User, newPassword: string, now: int): (v: User)
    ensures TokenVersionOrZero(v) == TokenVersionOrZero(u) + 1 && v.tokenVersion.Some?
    ensures Compare(newPassword, v.password) && v.passwordChangedAt == Some(now)
    ensures v.email == u.email && v.role == u.role && v.tenantId == u.tenantId && v.isActive == u.isActive
    ensures v.firstName == u.firstName && v.lastName == u.lastName && v.phone == u.phone
  {
    u.(password := Hash(newPassword), passwordChangedAt := Some(now),
       tokenVersion := Some(TokenVersionOrZero(u) + 1))
  }

  datatype UserView = UserView(id: Id, email: string, role: UserRole, firstName: string, lastName: string)

  /** What a successful login or OTP verification returns: the signed
      payload and the user summary (absent when no user has the e-mail). */
  datatype Session = Session(accessToken: Claims, user: Option<UserView>)

  function ViewOf(id: Id, u: User): UserView
  {
    UserView(id, u.email, u.role, u.firstName, u.lastName)
  }

  /** The payload `login` signs: it carries the token version. */
  function LoginClaims(id: Id, u: User): (c: Claims)
    ensures c.sub == Some(id) && c.tokenVersion == Some(TokenVersionOrZero(u)) && c.purpose.None?
  {
    Claims(Some(id), Some(u.email), Some(u.role), Some(u.tenantId), Some(TokenVersionOrZero(u)), None)
  }

  /** The payload `verifyOtp` signs: it carries no token version. */
  function OtpSessionClaims(id: Id, u: User): (c: Claims)
    ensures c.sub == Some(id) && c.tokenVersion.None? && c.purpose.None?
  {
    Claims(Some(id), Some(u.email), Some(u.role), Some(u.tenantId), None, None)
  }

  /** The payload of the password-reset link. */
  function ResetClaims(id: Id, u: User): (c: Claims)
    ensures c.sub == Some(id) && c.purpose == Some(ResetPurpose)
    ensures c.tokenVersion == Some(TokenVersionOrZero(u))
  {
    Claims(Some(id), None, None, None, Some(TokenVersionOrZero(u)), Some(ResetPurpose))
  }

  /** The checks `resetPassword` makes on the verified payload, in order:
      verification, purpose, subject. The token version is not consulted. */
  function ResetTarget(payload: Option<Claims>, users: map<Id, User>): (r: Result<Id>)
    ensures r.Ok? <==> payload.Some? && payload.value.purpose == Some(ResetPurpose)
                       && payload.value.sub.Some? && payload.value.sub.value in users
    ensures r.Ok? ==> r.value == payload.value.sub.value
    ensures r.Err? ==> r.error.kind == BadRequest
  {
    match payload
    case None => Err(Error(BadRequest, ResetTokenInvalidOrExpired))
    case Some(p) =>
      if p.purpose != Some(ResetPurpose) then Err(Error(BadRequest, ResetTokenInvalid))
      else if p.sub.None? || p.sub.value !in users then Err(Error(BadRequest, ResetTokenInvalid))
      else Ok(p.sub.value)
  }

  /** A reset link stays usable after it has been used: resetting the
      password does not change what the checks decide for the same payload,
      because they ignore the token version. */
  lemma ResetTokenReusable(c: Claims, users: map<Id, User>, newPassword: string, now: int)
    requires ResetTarget(Some(c), users).Ok?
    ensures var id := ResetTarget(Some(c), users).value;
            ResetTarget(Some(c), users[id := WithNewPassword(users[id], newPassword, now)]) == Ok(id)
  {
  }

  predicate AdminSchoolExists(schools: map<Id, School>, email: string)
  {
    exists sid :: sid in schools && schools[sid].adminEmail == email
  }

  predicate AdminSchoolVerified(schools: map<Id, School>, email: string)
  {
    exists sid :: sid in schools && schools[sid].adminEmail == email && schools[sid].isVerified
  }

  /** `schoolModel.findById(user.tenantId)` finds a verified school. */
  predicate TenantVerified(schools: map<Id, School>, tenantId: Id)
  {
    tenantId in schools && schools[tenantId].isVerified
  }

  /** Replacing a user by one with the same e-mail keeps the e-mail index. */
  lemma SameEmailUpdate(users: map<Id, User>, id: Id, u: User)
    requires id in users && u.email == users[id].email
    ensures forall e :: EmailTaken(users, e) <==> EmailTaken(users[id := u], e)
    ensures UniqueEmails(users) ==> UniqueEmails(users[id := u])
  {
    forall e | EmailTaken(users, e) ensures EmailTaken(users[id := u], e) {
      var w :| w in users && users[w].email == e;
      assert users[id := u][w].email == e;
    }
  }

  /** The unique indexes, and ids from `nextId` on still unused. A school
      whose administrator failed to save stays behind without a user, so no
      link between school admin e-mails and users is kept. */
  ghost predicate StoreInvariant(users: map<Id, User>, schools: map<Id, School>, nextId: nat)
  {
    && UniqueEmails(users)
    && UniqueSchoolNames(schools)
    && (forall k: nat {:trigger ObjectId(k)} :: nextId <= k ==> ObjectId(k) !in users && ObjectId(k) !in schools)
  }

  /** Saving a school under the next id keeps the store invariant when its
      name is not taken. */
  lemma {:induction false} InsertSchoolKeepsInvariant(users: map<Id, User>, schools: map<Id, School>, n: nat,
                                                      s: School)
    requires StoreInvariant(users, schools, n)
    requires !SchoolNameTaken(schools, s.schoolName)
    ensures ObjectId(n) !in schools
    ensures StoreInvariant(users, schools[ObjectId(n) := s], n + 1)
  {
    var schools' := schools[ObjectId(n) := s];
    assert ObjectId(n) !in schools;
    forall k: nat | n + 1 <= k
      ensures ObjectId(k) !in users && ObjectId(k) !in schools'
    {
      ObjectIdInjective(k, n);
      assert ObjectId(k) !in users && ObjectId(k) !in schools;
    }
  }

  /** Saving a user under the next id keeps the store invariant when its
      e-mail is not taken. */
  lemma {:induction false} InsertUserKeepsInvariant(users: map<Id, User>, schools: map<Id, School>, n: nat,
                                                    u: User)
    requires StoreInvariant(users, schools, n)
    requires !EmailTaken(users, u.email)
    ensures ObjectId(n) !in users
    ensures StoreInvariant(users[ObjectId(n) := u], schools, n + 1)
  {
    var users' := users[ObjectId(n) := u];
    assert ObjectId(n) !in users;
    forall k: nat | n + 1 <= k
      ensures ObjectId(k) !in users' && ObjectId(k) !in schools
    {
      ObjectIdInjective(k, n);
      assert ObjectId(k) !in users && ObjectId(k) !in schools;
    }
    forall a, b | a in users' && b in users' && users'[a].email == users'[b].email
      ensures a == b
    {
    }
  }

  /** The school and administrator `register` inserts, under the next two
      ids, keep the store invariant when neither the name nor the e-mail is
      taken. */
  lemma {:induction false} RegisterKeepsInvariant(users: map<Id, User>, schools: map<Id, School>, n: nat,
                                                  dto: RegisterSchoolDto)
    requires StoreInvariant(users, schools, n)
    requires !SchoolNameTaken(schools, dto.schoolName) && !EmailTaken(users, dto.adminEmail)
    ensures ObjectId(n) !in schools && ObjectId(n + 1) !in users
    ensures StoreInvariant(users[ObjectId(n + 1) := NewAdmin(dto, ObjectId(n))],
                           schools[ObjectId(n) := NewSchool(dto)], n + 2)
  {
    InsertSchoolKeepsInvariant(users, schools, n, NewSchool(dto));
    InsertUserKeepsInvariant(users, schools[ObjectId(n) := NewSchool(dto)], n + 1, NewAdmin(dto, ObjectId(n)));
  }

  /** Deleting documents keeps the store invariant: the indexes of a smaller
      collection are still unique and the counter is untouched. */
  lemma RemoveKeepsInvariant(users: map<Id, User>, schools: map<Id, School>, n: nat, uid: Id, sid: Id)
    requires StoreInvariant(users, schools, n)
    ensures StoreInvariant(users - {uid}, schools - {sid}, n)
  {
  }

  /** A registration the validation pipe accepts passes the documents'
      `required` checks, whatever non-empty id the school gets. */
  lemma ValidatedRegistrationSaves(raw: RawRegistration, schoolId: Id)
    requires Validate(raw).Ok? && schoolId != ""
    ensures SchoolDocumentValid(NewSchool(Validate(raw).value))
    ensures UserDocumentValid(NewAdmin(Validate(raw).value, schoolId))
  {
  }

  /** Marking a school verified changes neither its name nor its admin
      e-mail, so the store invariant holds afterwards. */
  lemma MarkVerifiedKeepsInvariant(users: map<Id, User>, schools: map<Id, School>, n: nat, sid: Id)
    requires StoreInvariant(users, schools, n) && sid in schools
    ensures StoreInvariant(users, schools[sid := schools[sid].(isVerified := true)], n)
  {
    var schools' := schools[sid := schools[sid].(isVerified := true)];
    assert forall t :: t in schools' ==>
      schools'[t].schoolName == schools[t].schoolName && schools'[t].adminEmail == schools[t].adminEmail;
  }

  // ---------------------------------------------------------------------------
  // The service
  // ---------------------------------------------------------------------------

  class AuthService {
    var users: map<Id, User>
    var schools: map<Id, School>
    var otpStore: map<string, OtpEntry>
    var resendAttempts: map<string, ResendAttempt>
    var nextId: nat

    /** The persistent-store invariant plus the ephemeral maps'
        well-formedness. */
    ghost predicate Valid()
      reads this
    {
      && StoreInvariant(users, schools, nextId)
      && (forall e :: e in resendAttempts ==> 1 <= resendAttempts[e].count <= MaxResendAttempts)
      && (forall e :: e in otpStore ==> IsOtpCode(otpStore[e].code))
    }

    constructor ()
      ensures Valid()
      ensures users == map[] && schools == map[] && otpStore == map[] && resendAttempts == map[]
    {
      users, schools, otpStore, resendAttempts := map[], map[], map[], map[];
      nextId := 0;
    }

    /** `sendOtpEmail`: stores a fresh code for `email` (overwriting any
        earlier one) before the mail goes out; reports whether it went out. */
    method SendOtpEmail(email: string, otp: nat, now: int, mailOk: bool) returns (sent: bool)
      requires 100000 <= otp <= 999999
      modifies this`otpStore
      ensures otpStore == old(otpStore)[email := IssueOtp(otp, now)]
      ensures sent == mailOk
    {
      otpStore := otpStore[email := IssueOtp(otp, now)];
      sent := mailOk;
    }

    /** `tenantService.create`: the school document is validated, then
        stored under a fresh id. */
    method SaveSchool(school: School) returns (r: Result<Id>)
      requires Valid() && !SchoolNameTaken(schools, school.schoolName)
      modifies this`schools, this`nextId
      ensures Valid()
      ensures !SchoolDocumentValid(school) ==> r == Err(UnhandledError) && schools == old(schools) && nextId == old(nextId)
      ensures SchoolDocumentValid(school) ==>
        r.Ok? && r.value != "" && r.value !in old(schools) && schools == old(schools)[r.value := school]
    {
      if !SchoolDocumentValid(school) {
        return Err(UnhandledError);
      }
      InsertSchoolKeepsInvariant(users, schools, nextId, school);
      r := Ok(ObjectId(nextId));
      schools, nextId := schools[ObjectId(nextId) := school], nextId + 1;
    }

    /** `newUser.save()`: the document is validated, then stored under a
        fresh id. */
    method SaveUser(user: User) returns (r: Result<Id>)
      requires Valid() && !EmailTaken(users, user.email)
      modifies this`users, this`nextId
      ensures Valid()
      ensures !UserDocumentValid(user) ==> r == Err(UnhandledError) && users == old(users) && nextId == old(nextId)
      ensures UserDocumentValid(user) ==> r.Ok? && r.value !in old(users) && users == old(users)[r.value := user]
    {
      if !UserDocumentValid(user) {
        return Err(UnhandledError);
      }
      InsertUserKeepsInvariant(users, schools, nextId, user);
      r := Ok(ObjectId(nextId));
      users, nextId := users[ObjectId(nextId) := user], nextId + 1;
    }

    /** `register`, in the source's order: the two conflict checks, the
        school's save, the administrator's save, then the mail. A document
        whose `required` check fails makes its `save` throw, which surfaces as
        an unhandled error; when it is the administrator, the school is
        already saved and stays. A failed mail deletes both documents again;
        the issued code stays in the store. */
    method Register(dto: RegisterSchoolDto, otp: nat, now: int, mailOk: bool) returns (r: Result<Id>)
      requires Valid()
      requires 100000 <= otp <= 999999
      modifies this
      ensures Valid()
      ensures SchoolNameTaken(old(schools), dto.schoolName) ==>
        r == Err(Error(Conflict, SchoolNameConflict)) && unchanged(this)
      ensures !SchoolNameTaken(old(schools), dto.schoolName) && EmailTaken(old(users), dto.adminEmail) ==>
        r == Err(Error(Conflict, AdminEmailConflict)) && unchanged(this)
      ensures !SchoolNameTaken(old(schools), dto.schoolName) && !EmailTaken(old(users), dto.adminEmail)
              && !SchoolDocumentValid(NewSchool(dto)) ==>
        r == Err(UnhandledError) && unchanged(this)
      ensures !SchoolNameTaken(old(schools), dto.schoolName) && !EmailTaken(old(users), dto.adminEmail)
              && SchoolDocumentValid(NewSchool(dto)) && !AdminDocumentValid(dto) ==>
        && r == Err(UnhandledError)
        && (exists sid :: sid !in old(schools) && schools == old(schools)[sid := NewSchool(dto)])
        && users == old(users) && otpStore == old(otpStore) && resendAttempts == old(resendAttempts)
      ensures !SchoolNameTaken(old(schools), dto.schoolName) && !EmailTaken(old(users), dto.adminEmail)
              && SchoolDocumentValid(NewSchool(dto)) && AdminDocumentValid(dto) ==>
        && otpStore == old(otpStore)[dto.adminEmail := IssueOtp(otp, now)]
        && resendAttempts == old(resendAttempts)
      ensures !SchoolNameTaken(old(schools), dto.schoolName) && !EmailTaken(old(users), dto.adminEmail)
              && SchoolDocumentValid(NewSchool(dto)) && AdminDocumentValid(dto) && !mailOk ==>
        && r == Err(Error(InternalServerError, RegisterMailFailed))
        && users == old(users) && schools == old(schools)
      ensures !SchoolNameTaken(old(schools), dto.schoolName) && !EmailTaken(old(users), dto.adminEmail)
              && SchoolDocumentValid(NewSchool(dto)) && AdminDocumentValid(dto) && mailOk ==>
        && r.Ok? && r.value !in old(schools)
        && schools == old(schools)[r.value := NewSchool(dto)]
        && (exists uid :: uid !in old(users) && users == old(users)[uid := NewAdmin(dto, r.value)])
    {
      if SchoolNameTaken(schools, dto.schoolName) {
        return Err(Error(Conflict, SchoolNameConflict));
      }
      if EmailTaken(users, dto.adminEmail) {
        return Err(Error(Conflict, AdminEmailConflict));
      }
      var savedSchool := SaveSchool(NewSchool(dto));
      if savedSchool.Err? {
        return Err(savedSchool.error);
      }
      var schoolId := savedSchool.value;
      var savedAdmin := SaveUser(NewAdmin(dto, schoolId));
      if savedAdmin.Err? {
        return Err(savedAdmin.error);
      }
      var userId := savedAdmin.value;
      var sent := SendOtpEmail(dto.adminEmail, otp, now, mailOk);
      if !sent {
        RemoveKeepsInvariant(users, schools, nextId, userId, schoolId);
        DeleteInserted(old(schools), schoolId, NewSchool(dto));
        DeleteInserted(old(users), userId, NewAdmin(dto, schoolId));
        schools, users := schools - {schoolId}, users - {userId};
        return Err(Error(InternalServerError, RegisterMailFailed));
      }
      r := Ok(schoolId);
    }

    method VerifyOtp(email: string, otpCode: string, now: int) returns (r: Result<Session>)
      requires Valid()
      modifies this
      ensures Valid()
      ensures CheckOtp(Lookup(old(otpStore), email), otpCode, now).Some? ==>
        r == Err(CheckOtp(Lookup(old(otpStore), email), otpCode, now).value) && unchanged(this)
      ensures CheckOtp(Lookup(old(otpStore), email), otpCode, now).None? && !AdminSchoolExists(old(schools), email) ==>
        r == Err(Error(BadRequest, SchoolNotFoundForEmail)) && unchanged(this)
      ensures CheckOtp(Lookup(old(otpStore), email), otpCode, now).None? && AdminSchoolExists(old(schools), email) ==>
        && r.Ok?
        && (exists sid :: sid in old(schools) && old(schools)[sid].adminEmail == email
              && schools == old(schools)[sid := old(schools)[sid].(isVerified := true)])
        && users == old(users) && nextId == old(nextId)
        && otpStore == old(otpStore) - {email}
        && resendAttempts == old(resendAttempts) - {email}
        && r.value.accessToken.tokenVersion.None?
        && (forall uid :: uid in users && users[uid].email == email ==>
              r.value.accessToken == OtpSessionClaims(uid, users[uid]) && r.value.user == Some(ViewOf(uid, users[uid])))
        && (!EmailTaken(users, email) ==>
              r.value.accessToken == Claims(None, None, None, None, None, None) && r.value.user.None?)
    {
      var check := CheckOtp(Lookup(otpStore, email), otpCode, now);
      if check.Some? {
        return Err(check.value);
      }
      if !AdminSchoolExists(schools, email) {
        return Err(Error(BadRequest, SchoolNotFoundForEmail));
      }
      var sid :| sid in schools && schools[sid].adminEmail == email;
      MarkVerifiedKeepsInvariant(users, schools, nextId, sid);
      schools, otpStore, resendAttempts :=
        schools[sid := schools[sid].(isVerified := true)], otpStore - {email}, resendAttempts - {email};
      if EmailTaken(users, email) {
        var uid :| uid in users && users[uid].email == email;
        r := Ok(Session(OtpSessionClaims(uid, users[uid]), Some(ViewOf(uid, users[uid]))));
      } else {
        r := Ok(Session(Claims(None, None, None, None, None, None), None));
      }
    }

    method ResendOtp(email: string, otp: nat, now: int, mailOk: bool) returns (r: Result<string>)
      requires Valid()
      requires 100000 <= otp <= 999999
      modifies this
      ensures Valid()
      ensures !EmailTaken(old(users), email) ==>
        r == Err(Error(BadRequest, UserNotFoundForEmail)) && unchanged(this)
      ensures EmailTaken(old(users), email) && AdminSchoolVerified(old(schools), email) ==>
        r == Err(Error(BadRequest, SchoolAlreadyVerified)) && unchanged(this)
      ensures EmailTaken(old(users), email) && !AdminSchoolVerified(old(schools), email) ==>
        match Throttle(Lookup(old(resendAttempts), email), now)
        case Deny(m) =>
          && r == Err(Error(BadRequest, TooManyResendsPrefix + DecimalString(m) + " minutes."))
          && unchanged(this)
        case Allow(next) =>
          && resendAttempts == old(resendAttempts)[email := next]
          && otpStore == old(otpStore)[email := IssueOtp(otp, now)]
          && users == old(users) && schools == old(schools) && nextId == old(nextId)
          && r == if mailOk then Ok(OtpResent)
                  else Err(Error(InternalServerError, ResendMailFailed))
    {
      if !EmailTaken(users, email) {
        return Err(Error(BadRequest, UserNotFoundForEmail));
      }
      if AdminSchoolVerified(schools, email) {
        return Err(Error(BadRequest, SchoolAlreadyVerified));
      }
      var attemptData := if email in resendAttempts then resendAttempts[email] else ResendAttempt(0, 0);
      var cooldownExpired := now - attemptData.lastAttempt > ResendCooldownMs;
      if attemptData.count >= MaxResendAttempts && !cooldownExpired {
        var minutesLeft := CeilMinutes(attemptData.lastAttempt + ResendCooldownMs - now);
        return Err(Error(BadRequest, TooManyResendsPrefix
                                     + DecimalString(minutesLeft) + " minutes."));
      }
      if cooldownExpired {
        attemptData := attemptData.(count := 0);
      }
      attemptData := attemptData.(count := attemptData.count + 1);
      attemptData := attemptData.(lastAttempt := now);
      resendAttempts := resendAttempts[email := attemptData];
      var sent := SendOtpEmail(email, otp, now, mailOk);
      if sent {
        r := Ok(OtpResent);
      } else {
        r := Err(Error(InternalServerError, ResendMailFailed));
      }
    }

    method Login(email: string, password: string) returns (r: Result<Session>)
      requires Valid()
      ensures !EmailTaken(users, email) ==> r == Err(Error(BadRequest, InvalidCredentials))
      ensures forall uid :: uid in users && users[uid].email == email ==>
        && (!TenantVerified(schools, users[uid].tenantId) ==> r == Err(Error(BadRequest, AccountNotVerified)))
        && (TenantVerified(schools, users[uid].tenantId) && !Compare(password, users[uid].password) ==>
              r == Err(Error(BadRequest, InvalidCredentials)))
        && (TenantVerified(schools, users[uid].tenantId) && Compare(password, users[uid].password) ==>
              r == Ok(Session(LoginClaims(uid, users[uid]), Some(ViewOf(uid, users[uid])))))
    {
      if !EmailTaken(users, email) {
        return Err(Error(BadRequest, InvalidCredentials));
      }
      var uid :| uid in users && users[uid].email == email;
      var user := users[uid];
      if !TenantVerified(schools, user.tenantId) {
        return Err(Error(BadRequest, AccountNotVerified));
      }
      if !Compare(password, user.password) {
        return Err(Error(BadRequest, InvalidCredentials));
      }
      r := Ok(Session(LoginClaims(uid, user), Some(ViewOf(uid, user))));
    }

    /** Returns the generic message on every path; `resetLink` is the payload
        of the reset link delivered by mail, if one was delivered. */
    method ForgotPassword(email: string, mailOk: bool) returns (message: string, resetLink: Option<Claims>)
      requires Valid()
      ensures message == ForgotPasswordMessage
      ensures resetLink.Some? <==> mailOk && exists uid :: uid in users && users[uid].email == email
                                              && TenantVerified(schools, users[uid].tenantId)
      ensures forall uid :: uid in users && users[uid].email == email && resetLink.Some? ==>
                resetLink.value == ResetClaims(uid, users[uid])
    {
      message := ForgotPasswordMessage;
      resetLink := None;
      if !EmailTaken(users, email) {
        return;
      }
      var uid :| uid in users && users[uid].email == email;
      var user := users[uid];
      if !TenantVerified(schools, user.tenantId) {
        return;
      }
      var resetToken := ResetClaims(uid, user);
      if mailOk {
        resetLink := Some(resetToken);
      }
    }

    method ResetPassword(token: string, verify: Verifier, newPassword: string, now: int) returns (r: Result<string>)
      requires Valid()
      modifies this
      ensures Valid()
      ensures ResetTarget(verify(token), old(users)).Err? ==>
        r == Err(ResetTarget(verify(token), old(users)).error) && unchanged(this)
      ensures ResetTarget(verify(token), old(users)).Ok? ==>
        var id := ResetTarget(verify(token), old(users)).value;
        && users == old(users)[id := WithNewPassword(old(users)[id], newPassword, now)]
        && schools == old(schools) && otpStore == old(otpStore) && resendAttempts == old(resendAttempts)
        && nextId == old(nextId)
        && r == Ok(PasswordReset)
    {
      var payload := verify(token);
      if payload.None? {
        return Err(Error(BadRequest, ResetTokenInvalidOrExpired));
      }
      if payload.value.purpose != Some(ResetPurpose) {
        return Err(Error(BadRequest, ResetTokenInvalid));
      }
      if payload.value.sub.None? || payload.value.sub.value !in users {
        return Err(Error(BadRequest, ResetTokenInvalid));
      }
      var id := payload.value.sub.value;
      var updated := WithNewPassword(users[id], newPassword, now);
      SameEmailUpdate(users, id, updated);
      users := users[id := updated];
      r := Ok(PasswordReset);
    }

    method ChangePassword(userId: Id, currentPassword: string, newPassword: string, now: int) returns (r: Result<string>)
      requires Valid()
      modifies this
      ensures Valid()
      ensures userId !in old(users) ==>
        r == Err(Error(BadRequest, UserNotFound)) && unchanged(this)
      ensures userId in old(users) && !Compare(currentPassword, old(users)[userId].password) ==>
        r == Err(Error(BadRequest, CurrentPasswordIncorrect)) && unchanged(this)
      ensures userId in old(users) && Compare(currentPassword, old(users)[userId].password) ==>
        && users == old(users)[userId := WithNewPassword(old(users)[userId], newPassword, now)]
        && schools == old(schools) && otpStore == old(otpStore) && resendAttempts == old(resendAttempts)
        && nextId == old(nextId)
        && r == Ok(PasswordUpdated)
    {
      if userId !in users {
        return Err(Error(BadRequest, UserNotFound));
      }
      if !Compare(currentPassword, users[userId].password) {
        return Err(Error(BadRequest, CurrentPasswordIncorrect));
      }
      var updated := WithNewPassword(users[userId], newPassword, now);
      SameEmailUpdate(users, userId, updated);
      users := users[userId := updated];
      r := Ok(PasswordUpdated);
    }
  }
}
