# Multi-school administration backend — verified model of its core

This project models the core of a multi-school (multi-tenant) administration
backend and proves properties of the model. The original is a NestJS service
over MongoDB. The core covers:

- **Onboarding and authentication** (`AuthService`):
  - school registration, with a rollback when the OTP mail cannot be sent;
  - e-mail OTP verification, OTP resend with a throttle;
  - login, password-reset links, reset and change of password;
  - the token version (`tokenVersion`) that revokes older login tokens.
- **The authentication gate** (`JwtAuthGuard.canActivate`): the chain of checks that admits a request or refuses it, and the identity it attaches.
- **The academic calendar** (`AcademicService`):
  - academic years and terms, with date and overlap checks;
  - the single current year and single active term per scope. Setting a year
    current when it already is leaves the school with no current year: the
    year is loaded before the other flags are cleared, and Mongoose does not
    save a flag assigned its loaded value. The model keeps this behaviour;
  - archiving, completion, and the sorted listings.
- **Staff** (`StaffService`):
  - the default permissions of each staff role;
  - manual creation (a user account plus a staff record);
  - the CSV bulk import, which creates staff row by row with no rollback. Its
    outcome is stated against `FirstRefusal`, a reference function that replays
    the rows in order and names the first refused line and its error.
- **The school profile** (`SchoolService`): the partial update that keeps every field the request leaves out, and the completion flag.
- **The setup progress** (`DashboardService.getSetupProgress`).
- **The registration input rules** (`RegisterSchoolDto`).

Collections are maps from document id to record. Services whose methods change
the database or in-memory maps are classes whose fields are those maps. The
gate, the dashboard and the input rules are pure functions.

Modules:

- `Common` (`common.dfy`): results and HTTP error kinds.
- `Text` (`text.dfy`): digits, trimming, splitting, decimal strings.
- `Schemas` (`schemas.dfy`):
  - the records and enumerations;
  - the bcrypt stand-in;
  - document-id allocation.
- `RegisterValidation` (`register_dto.dfy`).
- `Jwt` (`jwt.dfy`): the token payload.
- `Auth` (`auth.dfy`).
- `Guard` (`guard.dfy`).
- `SessionIntegrity` (`session.dfy`): how tokens fare at the gate after a password change.
- `Ordering` (`ordering.dfy`): sorted insertion.
- `Academic` (`academic.dfy`).
- `Staff` (`staff.dfy`).
- `SchoolProfile` (`school.dfy`).
- `Dashboard` (`dashboard.dfy`).

Environment inputs are parameters:

- the current instant `now` (milliseconds);
- the random OTP number `otp`;
- the generated temporary password;
- whether a mail send succeeds (`mailOk`);
- the token verifier (`verify: string -> Option<Claims>`).

Where the service would sign a token, the model returns the claims it would sign.

## Model

| member | source | states |
|---|---|---|
| Common.Lookup | src/auth/auth.service.ts:124 | A map lookup (`Map.get`) is present exactly when the key is in the map, and then holds the stored value |
| Text.DecimalString | src/auth/auth.service.ts:298 | `Number.toString()` of a natural number is a non-empty digit string, a single digit exactly below 10, with no leading zero otherwise |
| Text.DecimalStringInjective | src/auth/auth.service.ts:298 | Distinct numbers give distinct decimal strings |
| Text.Trim | src/staff/staff.service.ts:175 | `String.trim()`: the result is an infix `s[i..j]` of the input with only white space before `i` and after `j`; it neither starts nor ends with white space, and is empty exactly when the input is all white space |
| Text.TrimOf | src/staff/staff.service.ts:175 | White space, then a middle that neither starts nor ends with white space, then white space, trims to exactly that middle |
| Text.TrimIdempotent | src/staff/staff.service.ts:197 | Trimming twice is trimming once |
| Text.Split | src/staff/staff.service.ts:197 | `split(',')` yields at least one piece, and no piece contains the separator |
| Text.SplitJoin | src/staff/staff.service.ts:197 | Joining the pieces of a split with the separator gives back the original line |
| Text.SplitAppend | src/staff/staff.service.ts:197 | A separator splits the text into the pieces before it followed by the pieces after it |
| Text.SplitWithoutSeparator | src/staff/staff.service.ts:197 | A text without the separator is a single piece, itself |
| Text.SplitSnoc | src/staff/staff.service.ts:169 | A character other than the separator appended to the text extends the last piece and nothing else |
| Text.SplitLastPiece | src/staff/staff.service.ts:169 | A non-empty last piece ends with the text's last character |
| Text.ReplaceWhere | src/staff/staff.service.ts:211 | Every character matching the class becomes the separator; every other character is kept in place |
| Text.SplitWhereAsSplit | src/staff/staff.service.ts:211 | Splitting at a character class is splitting on one separator after replacing the class by it: the pieces are the same, in the same order |
| Text.NonEmptyOnlyKeeps | src/staff/staff.service.ts:169 | `filter(Boolean)` keeps every non-empty string |
| Text.NonEmptyOnlyAppend | src/staff/staff.service.ts:169 | `filter(Boolean)` works piece by piece and keeps the order: filtering a concatenation is concatenating the filtered parts, and a single string is kept exactly when it is not empty |
| Schemas.ObjectIdInjective | src/auth/auth.service.ts:118 | Two insertions never receive the same document id |
| Schemas.ParseSchoolType | src/schemas/school.schema.ts:6-10 | A recognised school-type string names that type exactly, and a string is refused only when it is the name of no school type |
| Schemas.ParseCurriculum | src/schemas/school.schema.ts:12-17 | A recognised curriculum string names that curriculum exactly, and a string is refused only when it is the name of no curriculum |
| Schemas.FindStaffRole | src/staff/staff.service.ts:201 | Searching the role list from position i finds a role with that exact name, or shows that no role from i on has it |
| Schemas.ParseStaffRoleExact | src/staff/staff.service.ts:200-203 | `Object.values(StaffRole).includes(role)` holds exactly when some role has that name, and the role found has that name |
| Schemas.FindPermission | src/schemas/staff.schema.ts:43-75 | Searching the permission list finds a permission with that exact name, or shows that none from i on has it |
| Schemas.ParsePermissionExact | src/schemas/staff.schema.ts:97 | A string is accepted as a permission exactly when some permission has that name |
| Schemas.PermissionNameInjective | src/schemas/staff.schema.ts:43-75 | Distinct permissions have distinct string values |
| Schemas.ParsePermissionName | src/schemas/staff.schema.ts:43-75 | Every permission's string value parses back to that permission |
| RegisterValidation.MatchesAnchoredIff | src/auth/dto/register.dto.ts:24 | An anchored character-class pattern with no repetition matches exactly the strings of its length whose every character is in the class at that position |
| RegisterValidation.DigitalAddressShape | src/auth/dto/register.dto.ts:22-27 | `^[A-Z]{2}-\d{3}-\d{4}$` accepts exactly the 11-character strings of two capitals, `-`, three digits, `-`, four digits |
| RegisterValidation.ParseCurricula | src/auth/dto/register.dto.ts:14-16 | The curricula list is accepted exactly when every entry is a curriculum, and each parsed entry names the raw entry |
| RegisterValidation.Validate | src/auth/dto/register.dto.ts:4-57 | Validation succeeds exactly when every rule holds (non-empty fields, school type, each curriculum, digital-address pattern, password of at least 8 characters as `MinLength` counts them). An accepted dto carries every raw value: the names, address, region, city, GES code, admin fields, password, the school type and each curriculum by name and position. The address has 11 characters with `-` at positions 2 and 6. A rejection is a BadRequest |
| RegisterValidation.MeasuredLength | src/auth/dto/register.dto.ts:55 | `MinLength` counts every character but the presentation selectors U+FE0E and U+FE0F: the measure is at most the length, and equals it exactly when no selector occurs |
| RegisterValidation.MeasuredLengthAppend | src/auth/dto/register.dto.ts:55 | The measure adds up over concatenation; a single character counts 0 if it is a selector and 1 otherwise |
| Auth.OtpCode | src/auth/auth.service.ts:297-299 | A number in 100000..999999 prints as six digits with no leading zero |
| Auth.OtpCodeInjective | src/auth/auth.service.ts:297-299 | Different OTP numbers give different codes |
| Auth.IssueOtp | src/auth/auth.service.ts:249-253 | An issued entry holds a six-digit code and expires exactly 600000 ms after issue |
| Auth.CheckOtp | src/auth/auth.service.ts:124-132 | Every OTP refusal is a BadRequest |
| Auth.OtpAcceptedWithinWindow | src/auth/auth.service.ts:124-132 | A freshly issued code is accepted exactly when the same code comes back no later than its expiry instant; after the window the refusal is "Invalid or expired OTP." |
| Auth.StaleOtpRejected | src/auth/auth.service.ts:249-253 | After a second OTP is issued to the same email, the first code is refused |
| Auth.CeilMinutes | src/auth/auth.service.ts:207-212 | `Math.ceil(ms / 60000)` is the least m with ms <= 60000·m |
| Auth.Throttle | src/auth/auth.service.ts:198-225 | An allowed resend records `now` as the last attempt. The count becomes one more than the stored count while the last attempt is at most 900000 ms old; otherwise, or when nothing is stored, it becomes 1 |
| Auth.ThrottleDenial | src/auth/auth.service.ts:203-216 | A resend is refused exactly when there are already 3 or more attempts and at most 900000 ms have passed since the last one. The minutes reported are the remaining cooldown rounded up, and are at most 15 |
| Auth.ThrottleCountInRange | src/auth/auth.service.ts:218-225 | The attempt count stays within 1..3 |
| Auth.ThrottleResetsAfterCooldown | src/auth/auth.service.ts:218-224 | Once the cooldown has passed, the count restarts at 1 |
| Auth.FourthResendRefused | src/auth/auth.service.ts:198-225 | Three resends within the cooldown are allowed and a fourth is refused |
| Auth.NewSchool | src/auth/auth.service.ts:78-88 | A new school is unverified and keeps the requested name and admin email |
| Auth.NewAdmin | src/auth/auth.service.ts:91-100 | The founding user is an active SUPER_ADMIN of the new school with the admin email, token version 0 and a hash of the given password. For a non-empty school id it passes the user schema's `required` checks exactly when the four admin fields are non-empty |
| Auth.WithNewPassword | src/auth/auth.service.ts:415-419 | A password change stores a hash of the new password and the change instant, and raises the token version by exactly one. Identity, role, tenant and activity are unchanged |
| Auth.LoginClaims | src/auth/auth.service.ts:322-328 | A login token names the user and carries the current token version (0 when unset), with no purpose |
| Auth.OtpSessionClaims | src/auth/auth.service.ts:149-154 | The token issued on verification names the user but carries no token version |
| Auth.ResetClaims | src/auth/auth.service.ts:356-361 | A reset token names the user, has purpose `password-reset` and carries the token version |
| Auth.ResetTarget | src/auth/auth.service.ts:396-413 | A reset token is honoured exactly when it verifies, has the reset purpose and names an existing user; every refusal is a BadRequest |
| Auth.ResetTokenReusable | src/auth/auth.service.ts:406-419 | A reset token that was honoured is honoured again after the reset it caused, because the token version is never checked here |
| Auth.SameEmailUpdate | src/auth/auth.service.ts:416-419 | Rewriting a user without changing the email keeps the set of taken emails and their uniqueness |
| Auth.InsertSchoolKeepsInvariant | src/tenant/tenant.service.ts:12-15 | Saving a school whose name is free under the next id keeps the store invariant: unique school names and emails, and fresh ids above the counter |
| Auth.InsertUserKeepsInvariant | src/auth/auth.service.ts:91-101 | Saving a user whose email is free under the next id keeps the store invariant |
| Auth.RegisterKeepsInvariant | src/auth/auth.service.ts:78-101 | Inserting the new school and its admin under the next two ids keeps the store invariant when neither the name nor the email is taken |
| Auth.RemoveKeepsInvariant | src/auth/auth.service.ts:108-109 | Deleting the school and the user again keeps the store invariant |
| Auth.ValidatedRegistrationSaves | src/auth/dto/register.dto.ts:4-57 | A registration that passes validation yields a school and an admin that pass the schemas' `required` checks, so the unhandled-error paths of `register` need an unvalidated request |
| Auth.MarkVerifiedKeepsInvariant | src/auth/auth.service.ts:141-142 | Marking a school verified keeps the store invariant |
| Auth.AuthService.SendOtpEmail | src/auth/auth.service.ts:243-276 | Issuing an OTP overwrites the email's entry with a fresh one; the outcome is the mail outcome |
| Auth.AuthService.SaveSchool | src/tenant/tenant.service.ts:12-15 | A school document failing its `required` checks is not stored and is an unhandled error; a valid one is stored under a non-empty id not in use |
| Auth.AuthService.SaveUser | src/auth/auth.service.ts:91-101 | A user document failing its `required` checks is not stored and is an unhandled error; a valid one is stored under an id not in use |
| Auth.AuthService.Register | src/auth/auth.service.ts:43-120 | A taken school name, then a taken admin email, is a Conflict that changes nothing. A school failing its schema is an unhandled error that changes nothing. An admin failing its schema (an empty phone, say) is an unhandled error that leaves the new school saved, with no user and no OTP. Otherwise an OTP is issued. If the mail fails, the school and the user are removed again and the result is InternalServerError. If the mail succeeds, exactly one unverified school and one SUPER_ADMIN of it are added |
| Auth.AuthService.VerifyOtp | src/auth/auth.service.ts:122-181 | A missing, expired or different code, or no school for the email, is a BadRequest that changes nothing. On success the school is verified, the email's OTP and resend entries are removed, users are unchanged, and the session token carries no token version |
| Auth.AuthService.ResendOtp | src/auth/auth.service.ts:183-241 | An unknown user or an already verified school is a BadRequest that changes nothing. A throttled resend reports the minutes left and changes nothing. Otherwise the attempt is recorded and a new OTP is issued, whatever the mail outcome, and a mail failure is an InternalServerError |
| Auth.AuthService.Login | src/auth/auth.service.ts:305-340 | An unknown email or a wrong password gives "Invalid credentials". A missing or unverified school gives "Account is not verified", checked before the password. Success issues a login token with the current token version |
| Auth.AuthService.ForgotPassword | src/auth/auth.service.ts:342-391 | The answer is always the same message. A reset link is produced exactly when the user exists, the school is verified and the mail goes out, and it names that user |
| Auth.AuthService.ResetPassword | src/auth/auth.service.ts:393-434 | An unusable token is a BadRequest that changes nothing. Otherwise only the named user changes: a new password hash and a token version one higher |
| Auth.AuthService.ChangePassword | src/auth/auth.service.ts:436-465 | An unknown user or a wrong current password is a BadRequest that changes nothing. Otherwise only that user changes: a new password hash and a token version one higher |
| Guard.AuthorizationHeader | src/common/guards/jwt-auth.guard.ts:25-26 | The lower-case header is used when it is truthy, the capitalised one otherwise |
| Guard.BearerToken | src/common/guards/jwt-auth.guard.ts:27-34 | A token is extracted exactly from a string header starting with `Bearer `, and header = prefix + token |
| Guard.CanActivateAdmits | src/common/guards/jwt-auth.guard.ts:23-75 | A request is admitted exactly when all of these hold: it has a bearer token; the token verifies; it names an active user; any numeric token version matches the user's (0 for a user stored without one, as the loaded document has its default); and the user's tenant, if any, exists and is verified. The identity is that user's |
| Guard.UnauthorizedBeforeForbidden | src/common/guards/jwt-auth.guard.ts:27-65 | Refusals are Unauthorized or Forbidden, and Forbidden only comes after every token and user check has passed |
| Guard.MissingHeaderRefused | src/common/guards/jwt-auth.guard.ts:27-33 | Without a `Bearer ` string header the answer is "Missing authentication token" |
| SessionIntegrity.BearerRequestToken | src/common/guards/jwt-auth.guard.ts:34 | A `Bearer <token>` header yields exactly that token |
| SessionIntegrity.FreshLoginTokenAdmitted | src/auth/auth.service.ts:322-329 | A login token of an active user of a verified school is admitted with that user's identity, including a user stored without a token version |
| SessionIntegrity.LoginTokenRevokedByPasswordChange | src/auth/auth.service.ts:446-449 | After a password change, every earlier login token is refused as "Token is no longer valid" |
| SessionIntegrity.OtpSessionTokenSurvivesPasswordChange | src/auth/auth.service.ts:149-156 | The versionless verification token is admitted before and after a password change |
| SessionIntegrity.ResetLinkAfterReset | src/auth/auth.service.ts:356-361 | A reset payload is refused at the gate after the reset it caused, yet the reset endpoint still honours it |
| Ordering.InsertByPermutes | src/academic/academic.service.ts:25 | Sorted insertion adds the element and loses nothing |
| Ordering.InsertBySorted | src/academic/academic.service.ts:25 | Sorted insertion keeps a sorted sequence sorted |
| Academic.ClearCurrent | src/academic/academic.service.ts:43-48 | The update touches no key, clears `isCurrent` on exactly the tenant's years and changes nothing else |
| Academic.DeactivateTerms | src/academic/academic.service.ts:115-120 | The update clears `isActive` on exactly the year's terms and changes nothing else |
| Academic.ClearCurrentKeepsCalendar | src/academic/academic.service.ts:43-48 | Clearing the current flags keeps the calendar invariant: non-overlapping, distinctly named years with at most one current, and terms inside their year with at most one active |
| Academic.DeactivateKeepsCalendar | src/academic/academic.service.ts:115-120 | Deactivating a year's terms keeps the calendar invariant |
| Academic.RetireYearKeepsCalendar | src/academic/academic.service.ts:73-79 | Rewriting a year with the same dates, tenant and name and no current flag keeps the invariant |
| Academic.MakeCurrentKeepsCalendar | src/academic/academic.service.ts:64-69 | Making a year current once no year of the tenant is current keeps the invariant |
| Academic.InsertYearKeepsCalendar | src/academic/academic.service.ts:31-58 | A year that runs forwards, overlaps no year of the tenant, has a new name and, if current, is the only current one, keeps the invariant |
| Academic.InsertTermKeepsCalendar | src/academic/academic.service.ts:92-131 | A term inside its year that overlaps no term of that year, has a new name and, if active, is the only active one, keeps the invariant |
| Academic.CompleteTermKeepsCalendar | src/academic/academic.service.ts:137-139 | Completing a term keeps the invariant |
| Academic.SharedBoundaryConflicts | src/academic/academic.service.ts:34-36 | A year starting on the day another ends counts as overlapping (closed intervals) |
| Academic.SetCurrentLeavesOne | src/academic/academic.service.ts:61-71 | After setting a year that was not current, it is the tenant's only current year. After setting a year that was already current, the tenant has no current year, because the unchanged flag is not saved. Other tenants' years are untouched either way |
| Academic.SetCurrentRepeatedLeavesNone | src/academic/academic.service.ts:61-71 | Sending the same request twice for a year that was not current leaves the tenant with no current year |
| Academic.ClearCurrentKeepsQueries | src/academic/academic.service.ts:34-57 | Clearing the current flags changes neither the overlap check nor the name-uniqueness check |
| Academic.DeactivateKeepsQueries | src/academic/academic.service.ts:105-130 | Deactivating terms changes neither the term overlap check nor the term name check |
| Academic.TenantYearsStep | src/academic/academic.service.ts:25 | Adding one more document id to the scanned set adds that year's row exactly when it belongs to the tenant |
| Academic.YearTermsStep | src/academic/academic.service.ts:84 | Adding one more document id to the scanned set adds that term's row exactly when it belongs to the year |
| Academic.AcademicService.ListYears | src/academic/academic.service.ts:24-26 | The rows are exactly the tenant's years, each once, ordered by start date descending |
| Academic.AcademicService.ListTerms | src/academic/academic.service.ts:82-87 | The rows are exactly the year's terms, each once, ordered by start date ascending |
| Academic.AcademicService.CreateYear | src/academic/academic.service.ts:28-59 | A backwards or empty range, or an overlap with a tenant year, is a BadRequest that changes nothing. Otherwise the tenant's current flags are cleared first when the new year is current. Then the save fails, with the cleared flags staying cleared, when the name or the tenant is empty (the schema's `required` check) or the name is taken (the unique index); otherwise exactly that year is inserted under a new id |
| Academic.AcademicService.SetCurrentYear | src/academic/academic.service.ts:61-71 | An unknown or foreign year is NotFound with no change. Otherwise every current year of the tenant is cleared, and the chosen year is set current only when it was not current already (Mongoose saves only changed paths) |
| Academic.AcademicService.ArchiveYear | src/academic/academic.service.ts:73-80 | An unknown or foreign year is NotFound with no change. Otherwise the year is archived and no longer current |
| Academic.AcademicService.CreateTerm | src/academic/academic.service.ts:89-132 | The checks run in order: the range runs forwards, the year exists for the tenant, the term lies within the year, no overlap. A failed check is a BadRequest that changes nothing. An active term first deactivates the year's terms. Then the save fails, with the terms staying deactivated, when the name, the year id or the tenant is empty (the schema's `required` check) or the name is taken in that year (the unique index); otherwise exactly that term is inserted under a new id |
| Academic.AcademicService.MarkTermCompleted | src/academic/academic.service.ts:134-141 | An unknown or foreign term is NotFound with no change. Otherwise the term becomes completed and inactive |
| Staff.DefaultPermissions | src/staff/staff.service.ts:27-78 | Every role has at least one default permission, with no repeats. Only a principal gets ALL_ACCESS, and then nothing else |
| Staff.Dedup | src/staff/staff.service.ts:109-114 | `Array.from(new Set(...))` has no repeats, the same members and no more entries; `DedupOrder` adds the order |
| Staff.DedupOrder | src/staff/staff.service.ts:109-114 | The entries keep the order of their first occurrences in the input, as a `Set` iterates in insertion order |
| Staff.DedupOfDistinct | src/staff/staff.service.ts:109-114 | Deduplicating a list without repeats leaves it as it is |
| Staff.DedupKeepsDistinctPrefix | src/staff/staff.service.ts:109-114 | Deduplication keeps a repeat-free prefix in place, in order |
| Staff.StoredPermissions | src/staff/staff.service.ts:109-114 | The stored permissions have no repeats and are exactly the role's defaults together with the additional ones |
| Staff.StoredPermissionsOrder | src/staff/staff.service.ts:109-114 | The stored permissions appear in the order of their first occurrence in the defaults followed by the additional ones |
| Staff.StoredPermissionsShape | src/staff/staff.service.ts:109-114 | The stored list starts with the role's defaults in order. Without an explicit ALL_ACCESS it contains ALL_ACCESS exactly for a principal |
| Staff.StoredPermissionsValid | src/staff/staff.service.ts:109-122 | The stored list passes the schema's permission enum exactly when the additional permissions do |
| Staff.StaffUser | src/staff/staff.service.ts:97-106 | The staff account is an active ADMIN of the tenant with the given email, token version 0 and a hash of the temporary password |
| Staff.StaffRecordOf | src/staff/staff.service.ts:115-129 | The staff record is pending invitation and links the new user to the tenant |
| Staff.DropLineEnds | src/staff/staff.service.ts:169 | Splitting on `\r?\n` drops one carriage return before each line break and keeps the last piece as it is |
| Staff.Lines | src/staff/staff.service.ts:168-169 | The CSV lines are non-empty and contain no line break; `LinesAtLineFeed`, `LinesAtCrLf` and `LinesWithoutBreak` fix their content and order |
| Staff.DropLineEndsAppend | src/staff/staff.service.ts:169 | Over two runs of pieces, every piece of the first run loses its trailing carriage return and the second run is handled as on its own |
| Staff.LinesWithoutBreak | src/staff/staff.service.ts:169 | A text without a line feed is one line, itself, unless it is empty |
| Staff.LinesAtLineFeed | src/staff/staff.service.ts:169 | At a line feed not preceded by a carriage return, the lines are those before it followed by those after it |
| Staff.LinesAtCrLf | src/staff/staff.service.ts:169 | At a carriage return and line feed, the lines are those before the pair followed by those after it; neither character is kept |
| Staff.FirstLineIsHeader | src/staff/staff.service.ts:169-175 | A non-empty first line ended by `\n` or `\r\n` is `lines[0]`, the header, and the data lines follow it |
| Staff.RecordOf | src/staff/staff.service.ts:198-199 | The row record has exactly the header names as keys |
| Staff.RecordOfLastWins | src/staff/staff.service.ts:199 | A header name takes the cell under its last occurrence, or "" when the row is shorter |
| Staff.BuildRecord | src/staff/staff.service.ts:198-199 | The `forEach` loop builds exactly the row record |
| Staff.FirstMissing | src/staff/staff.service.ts:187-191 | Nothing is reported missing exactly when every required column is present. Otherwise the first absent required column, in order, is reported |
| Staff.NoneMissingIff | src/staff/staff.service.ts:176-191 | The header check passes exactly when all nine required columns are present |
| Staff.CheckHeaders | src/staff/staff.service.ts:187-191 | The loop over required columns reports the first missing one |
| Staff.ListCell | src/staff/staff.service.ts:211-218 | An empty cell gives no items; a non-empty one gives at least one |
| Staff.ListCellPieces | src/staff/staff.service.ts:211-218 | A non-empty cell gives the trimmed pieces between its `;` and `,` separators, in order: the pieces joined back with the separators give the cell |
| Staff.ListCellItems | src/staff/staff.service.ts:211 | Each list item is trimmed and contains no `;` or `,` |
| Staff.PermissionCell | src/staff/staff.service.ts:215-218 | The permission items are exactly the non-empty items of the list cell. They are `filter(Boolean)` of those items, so `Text.NonEmptyOnlyAppend` fixes their order: the order of the cell |
| Staff.BlankRowTrims | src/staff/staff.service.ts:196 | A row is skipped exactly when it trims to the empty string |
| Staff.DataRows | src/staff/staff.service.ts:194-196 | The processed rows are indices of non-blank lines after the header; `DataRowsOrdered` adds the order and completeness |
| Staff.DataRowsOrdered | src/staff/staff.service.ts:194-196 | The processed rows come in increasing order and include every non-blank line after the header |
| Staff.ParseRow | src/staff/staff.service.ts:197-219 | A row fails exactly when its role cell names no role, with "Invalid role at line <n>: <cell>". Otherwise the dto has that role; the name, email and phone cells; no department when that cell is empty; the classes and subjects list cells; the permission cell; and no start date, employment type or staff id |
| Staff.DataRowsPrefix | src/staff/staff.service.ts:194-196 | The rows processed before line i are a prefix of all processed rows |
| Staff.ParsedRows | src/staff/staff.service.ts:194-219 | Line i is parsed with its 1-based number i + 1 |
| Staff.ImportedExtend | src/staff/staff.service.ts:220-221 | Importing one more row appends its new staff id, its new user id, the user built from the row and the staff record pointing at that user to what was imported |
| Staff.ImportedKeepsUser | src/staff/staff.service.ts:97-107 | A user saved under an id not yet in use is none of the imported users, and what was imported still holds |
| Staff.StoppedAtRow | src/staff/staff.service.ts:193-222 | When a data row is refused after the earlier ones were imported, the import stopped there: exactly the earlier rows are imported, plus the row's own user when its save went through before a permission failure |
| Staff.DataRowsSkip | src/staff/staff.service.ts:196 | A blank line adds no data row |
| Staff.DataRowsNext | src/staff/staff.service.ts:194-196 | A non-blank line is the next data row |
| Staff.EmailsTaken | src/staff/staff.service.ts:81-84 | An e-mail is in the set of e-mails in use exactly when a user has it |
| Staff.EmailsInsert | src/staff/staff.service.ts:97-107 | Saving a new user adds exactly its e-mail to those in use |
| Staff.FirstRefusalMeans | src/staff/staff.service.ts:193-222 | The reference outcome stops at a non-blank line after data rows that all parsed; when it does not stop, every data row parsed and their e-mails were all free and pairwise different |
| Staff.TakenEmailStops | src/staff/staff.service.ts:81-84 | A data row whose e-mail is already in use stops the import at that row or earlier |
| Staff.DuplicateEmailStops | src/staff/staff.service.ts:81-84 | Two data rows with the same e-mail stop the import at the later one or earlier |
| Staff.InsertUserKeepsInvariant | src/staff/staff.service.ts:97-107 | Inserting a user with a new email under a fresh id keeps the staff-store invariant |
| Staff.InsertStaffKeepsInvariant | src/staff/staff.service.ts:115-130 | Inserting a staff record whose user exists in the same tenant, with valid and distinct permissions, keeps the invariant |
| Staff.StaffService.CreateManual | src/staff/staff.service.ts:80-162 | A taken email, then an unverified or missing school, is a BadRequest that changes nothing. A user document failing validation (an empty phone) is saved nowhere. Otherwise the user is saved; the staff record follows only when every permission is valid, or the user stays behind and the call fails. Existing staff are never altered |
| Staff.StaffService.SaveUser | src/staff/staff.service.ts:97-107 | A user document failing validation is not stored; a valid one is stored under an id not in use |
| Staff.StaffService.SaveStaff | src/staff/staff.service.ts:115-130 | A staff document with an unknown permission is not stored; a valid one is stored under an id not in use |
| Staff.StaffService.BulkImport | src/staff/staff.service.ts:164-228 | A missing file, fewer than two lines or a missing column is a BadRequest that changes nothing. Otherwise the outcome is the reference `FirstRefusal`: success exactly when no row is refused, and then one new user and one new staff record pointing at it per non-blank data row, in order, with the count and ids. Existing users are never altered. On a refusal its error is reported and exactly the data rows before the refused line stay imported, plus the refused row's user when only its permissions failed |
| Staff.StaffService.ImportRow | src/staff/staff.service.ts:195-221 | A row fails exactly when the reference `RowRefusal` refuses it (parse error, e-mail in use, school not verified, invalid documents), with that error and no staff change; the users change only by the row's user when its save went through before a permission failure. Otherwise it adds exactly one user built from the row under a new id and one staff record pointing at that user, and its e-mail joins those in use. Existing users are never altered |
| Staff.StaffService.ImportRows | src/staff/staff.service.ts:193-222 | The loop succeeds exactly when the reference `FirstRefusal` does not stop, importing every non-blank data row in order, each as a new user and a staff record pointing at it. Otherwise it reports the error of the line where `FirstRefusal` stops, and the rows before that line stay imported (no rollback). Existing users are never altered |
| SchoolProfile.ScalarFieldsMerged | src/school/school.service.ts:29-33 | Each scalar profile field takes the request's value when given and keeps the stored one otherwise |
| SchoolProfile.SocialsMerged | src/school/school.service.ts:34-37 | Social links merge key by key, with the request winning on shared keys and no key appearing from nowhere |
| SchoolProfile.OperatingHoursReplaced | src/school/school.service.ts:38-40 | Opening hours are replaced only by a supplied list |
| SchoolProfile.CompletionRecomputed | src/school/school.service.ts:43-46 | The stored flag is true exactly when logo, contact email and contact phone are all non-empty after the merge |
| SchoolProfile.OtherFieldsUnchanged | src/school/school.service.ts:29-46 | Name, type, curricula, admin email, GES code, address, region, city and verification are untouched |
| SchoolProfile.ApplyProfileIdempotent | src/school/school.service.ts:29-46 | Applying the same update twice stores the same school as applying it once |
| SchoolProfile.FullContactCompletes | src/school/school.service.ts:43-45 | An update carrying a non-empty logo, contact email and contact phone completes any profile |
| SchoolProfile.EmptyPhoneUncompletes | src/school/school.service.ts:32 | An empty phone in the request overwrites the stored phone and leaves the profile incomplete |
| SchoolProfile.NewSchoolFlagAccurate | src/auth/auth.service.ts:78-88 | A new school without profile fields keeps every stored completion flag accurate |
| SchoolProfile.ApplyProfileKeepsFlags | src/school/school.service.ts:43-48 | A profile update keeps every stored completion flag accurate |
| SchoolProfile.MergeProfile | src/school/school.service.ts:29-46 | The field-by-field edits produce exactly the merged profile with its recomputed flag |
| SchoolProfile.SchoolService.GetProfile | src/school/school.service.ts:14-20 | The tenant's school is returned when it exists, otherwise NotFound "School not found" |
| SchoolProfile.SchoolService.UpdateProfile | src/school/school.service.ts:22-50 | An absent school is NotFound and changes nothing. Otherwise only that school changes, to the merged profile, and the answer reports its stored completion flag |
| Dashboard.CountTrue | src/dashboard/dashboard.service.ts:26-28 | The count of true flags is at most the number of flags. It equals that number exactly when all are true, and is 0 exactly when none is |
| Dashboard.GetSetupProgress | src/dashboard/dashboard.service.ts:13-38 | The profile step is done exactly when the school exists with logo, contact email and contact phone. The other steps are never done. The percentage is 25 when the profile is done and 0 otherwise |
| Dashboard.PercentOfFourSteps | src/dashboard/dashboard.service.ts:26-29 | With four steps the percentage is 25 per completed step and lies within 0..100 |
| Dashboard.ProfileStepMatchesStoredFlag | src/dashboard/dashboard.service.ts:15-20 | When stored flags are accurate, the dashboard's profile step equals the school's stored `profileCompleted` |
| Dashboard.ProgressAfterUpdate | src/dashboard/dashboard.service.ts:15-20 | Right after a profile update, the dashboard's profile step equals the flag the update stored |

## Left out

- **Password hashing.** bcrypt is a deterministic, injective stand-in (`Hash`/`Compare`). Salting, the cost factor and timing are not modelled.
- **Tokens.** JWT signing, secrets, expiry strings and the signature check are a verifier parameter; services return the claims they would sign. The staff invitation token and its link are not part of this model.
- **Mail.** Each send is a boolean outcome. Templates, subjects, URLs and `currentYear` are not modelled. The welcome, reset and password-changed mails are best-effort in the source, so they only appear where their outcome matters (the reset link).
- **I/O and the environment.** Clocks, randomness and configuration lookups are parameters.
- **OTP generation.** Only the range 100000..999999 of `generateOtp` is modelled, not `Math.random`.
- **The temporary staff password.** It is a parameter.
- **Concurrency.** Concurrency and the interleaving of `await`s are not modelled. Each service call is atomic, including `Promise.all` in registration.
- **Mongo ids and dates.** A malformed document id (a cast error) and an invalid date string are not modelled. Dates are millisecond instants, and ids are allocated from a per-service counter.
- **Separate service state.** The services share one database in the source. Here each class holds its own maps, and the cross-service facts are lemmas over those maps (`SessionIntegrity`, `Dashboard`).
- **Schema fields of the school profile.** The school schema declares none of the profile fields the profile service writes (`logoUrl`, `contactEmail`, `contactPhone`, `websiteUrl`, `socials`, `operatingHours`, `profileCompleted`). The model takes the field list from the service and stores them as written. Mongoose's strict-mode dropping of undeclared paths is not modelled.
- **Validation of the profile update request.** The rules on `UpdateSchoolProfileDto` (`IsUrl`, `IsEmail`) are not modelled. The model accepts any strings, so `SchoolProfile.EmptyPhoneUncompletes` is the case the validators would let through for the phone only.
- **Academic request validation.** The `IsNotEmpty`, `IsString` and `IsDateString` rules of the year and term requests are not modelled as a separate step. `CreateYear` and `CreateTerm` take the request as it reaches the service, so an empty name is refused only by the schema's `required` check at save, after the flags were already cleared.
- **`IsEmail` and `IsPhoneNumber('GH')` on registration.** They are reduced to non-empty strings.
- **Register without validation.** `Auth.AuthService.Register` takes the request as it reaches the service. When the validation pipe runs, `Auth.ValidatedRegistrationSaves` shows its unhandled-error paths cannot occur. When it does not, an empty admin field leaves the saved school behind. The store invariant therefore does not link a school's admin email to a user, nor keep admin emails unique: a later registration with the same admin email and another name succeeds, and `VerifyOtp` then verifies any one school with that email, as `findOne` does.
- **`Staff.Cell`.** It reads a missing key as "". The source reads `record[h]` only after the header check guarantees the key.
- **List-cell regex.** The split `/\s*;\s*|\s*,\s*/` is modelled as splitting on `;`/`,` and trimming each piece. `Staff.ListCellItems` states the result's shape. Equivalence with the regex engine's leftmost matching is argued, not proved.
- **Resend with a missing school.** When no school has the email, `ResendOtp` treats the school as unverified and proceeds, as the source's `school?.isVerified` does.
- **Token version.** It is an `Option<int>`, with `None` for a stored user without the field, because the service reads it as `tokenVersion ?? 0`. The schema default is 0, and every user the services create starts at `Some(0)` (`Auth.NewAdmin`, `Staff.StaffUser`). The gate loads full documents, which carry the default, so it compares a token's version with `TokenVersionOrZero`: a login token of such a user, which carries 0, is admitted.
- **Follow-the-code choices.**
  - The verification token carries no token version, so it survives password changes.
  - The reset token is accepted again after the reset it caused.
  - The CSV error message counts filtered lines, not the file's physical lines.
  - An empty phone in manual staff creation is saved as "" and fails the user schema's `required` check, an internal error.
  - In each case the model follows the code, and the lemmas named above state the consequence.
- **Floating point.** `(completedCount / 4) * 100` is computed on exact reals. For the five possible counts the doubles are exact as well.
