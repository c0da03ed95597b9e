/** The persisted records (User, School, Staff, AcademicYear, Term), their
    enumerations, the password hasher and document-id allocation. Collections
    are maps from document id to record. */
module Schemas {
  import opened Common
  import opened Text

  /** A MongoDB document id (`_id.toString()`). */
  type Id = string

  /** The id a collection hands out for its n-th insertion: ids never repeat. */
  function ObjectId(n: nat): (id: Id)
    ensures id != ""
  {
    DecimalString(n)
  }

  lemma ObjectIdInjective(n: nat, m: nat)
    requires n != m
    ensures ObjectId(n) != ObjectId(m)
  {
    if ObjectId(n) == ObjectId(m) {
      DecimalStringInjective(n, m);
    }
  }

  /** The id handed out at step `n` differs from every later one. */
  lemma ObjectIdFresh(n: nat)
    ensures forall k: nat {:trigger ObjectId(k)} :: n < k ==> ObjectId(k) != ObjectId(n)
  {
    forall k: nat | n < k ensures ObjectId(k) != ObjectId(n) {
      ObjectIdInjective(k, n);
    }
  }

  // ---------------------------------------------------------------------------
  // Password hashing (bcrypt, cost 12). One-way in the source; here a digest
  // determines the password it was made from, and salting is not modelled.
  // ---------------------------------------------------------------------------

  datatype Digest = Digest(secret: string)

  function Hash(password: string): Digest
  {
    Digest(password)
  }

  /** `bcrypt.compare`: a password matches exactly the digest made from it. */
  predicate Compare(password: string, digest: Digest)
  {
    Hash(password) == digest
  }

  // ---------------------------------------------------------------------------
  // Enumerations
  // ---------------------------------------------------------------------------

  /** Length and first two characters of a name, as one number. */
  function NameKey(s: string): int
  {
    if |s| < 2 then |s| else |s| * 0x1_0000_0000 + s[0] as int * 0x1_0000 + s[1] as int
  }

  datatype UserRole = SuperAdmin | Admin | Teacher | Student | Parent

  datatype SchoolType = PrivateJhs | PrivateShs | InternationalShs

  datatype CurriculumType = Wassce | Igcse | Ib | GesStandard

  function ParseSchoolType(s: string): (r: Option<SchoolType>)
    ensures r.Some? ==> SchoolTypeName(r.value) == s
    ensures r.None? ==> forall t :: SchoolTypeName(t) != s
  {
    if s == "PRIVATE_JHS" then Some(PrivateJhs)
    else if s == "PRIVATE_SHS" then Some(PrivateShs)
    else if s == "INTERNATIONAL_SHS" then Some(InternationalShs)
    else None
  }

  function SchoolTypeName(t: SchoolType): string
  {
    match t
    case PrivateJhs => "PRIVATE_JHS"
    case PrivateShs => "PRIVATE_SHS"
    case InternationalShs => "INTERNATIONAL_SHS"
  }

  function ParseCurriculum(s: string): (r: Option<CurriculumType>)
    ensures r.Some? ==> CurriculumName(r.value) == s
    ensures r.None? ==> forall c :: CurriculumName(c) != s
  {
    if s == "WASSCE" then Some(Wassce)
    else if s == "IGCSE" then Some(Igcse)
    else if s == "IB" then Some(Ib)
    else if s == "GES_STANDARD" then Some(GesStandard)
    else None
  }

  function CurriculumName(c: CurriculumType): string
  {
    match c
    case Wassce => "WASSCE"
    case Igcse => "IGCSE"
    case Ib => "IB"
    case GesStandard => "GES_STANDARD"
  }

  datatype StaffRole =
    | Principal | VicePrincipal | HeadOfDepartment
    | TeacherRole | TeachingAssistant
    | SchoolAdministrator | AdmissionOfficer | HumanResources
    | FinanceManager | Accountant | Bursar
    | ItAdministrator | Librarian | Nurse | Counselor
    | TransportManager | FacilitiesManager

  function StaffRoleName(r: StaffRole): string
  {
    match r
    case Principal => "PRINCIPAL"
    case VicePrincipal => "VICE_PRINCIPAL"
    case HeadOfDepartment => "HEAD_OF_DEPARTMENT"
    case TeacherRole => "TEACHER"
    case TeachingAssistant => "TEACHING_ASSISTANT"
    case SchoolAdministrator => "SCHOOL_ADMINISTRATOR"
    case AdmissionOfficer => "ADMISSION_OFFICER"
    case HumanResources => "HUMAN_RESOURCES"
    case FinanceManager => "FINANCE_MANAGER"
    case Accountant => "ACCOUNTANT"
    case Bursar => "BURSAR"
    case ItAdministrator => "IT_ADMINISTRATOR"
    case Librarian => "LIBRARIAN"
    case Nurse => "NURSE"
    case Counselor => "COUNSELOR"
    case TransportManager => "TRANSPORT_MANAGER"
    case FacilitiesManager => "FACILITIES_MANAGER"
  }

  /** `Object.values(StaffRole)`, in declaration order. */
  const StaffRoles: seq<StaffRole> :=
    [
      Principal, VicePrincipal, HeadOfDepartment, TeacherRole, TeachingAssistant,
      SchoolAdministrator, AdmissionOfficer, HumanResources, FinanceManager, Accountant,
      Bursar, ItAdministrator, Librarian, Nurse, Counselor, TransportManager,
      FacilitiesManager
    ]

  lemma StaffRolesComplete(r: StaffRole)
    ensures r in StaffRoles
  {
  }

  /** `Object.values(StaffRole).includes(s)`, returning the member found. */
  function ParseStaffRole(s: string): (r: Option<StaffRole>)
  {
    FindStaffRole(s, StaffRoles, 0)
  }

  /** The first of `roles` from position `i` on that is named `s`. */
  function FindStaffRole(s: string, roles: seq<StaffRole>, i: nat): (r: Option<StaffRole>)
    requires i <= |roles|
    ensures r.Some? ==> StaffRoleName(r.value) == s
    ensures r.None? ==> forall k :: i <= k < |roles| ==> StaffRoleName(roles[k]) != s
    decreases |roles| - i
  {
    if i == |roles| then None
    else if StaffRoleName(roles[i]) == s then Some(roles[i])
    else FindStaffRole(s, roles, i + 1)
  }

  /** The enum check of the CSV import accepts exactly the role names, and
      what it returns carries the name it was given. */
  lemma ParseStaffRoleExact(s: string)
    ensures ParseStaffRole(s).Some? <==> exists r :: StaffRoleName(r) == s
    ensures ParseStaffRole(s).Some? ==> StaffRoleName(ParseStaffRole(s).value) == s
  {
    if r :| StaffRoleName(r) == s {
      StaffRolesComplete(r);
      var k :| 0 <= k < |StaffRoles| && StaffRoles[k] == r;
    }
  }

  datatype StaffStatus = PendingInvitation | Active | Inactive

  datatype Permission =
    | AllAccess | SystemSettings
    | AcademicOps | DeptManagement | ClassManagement | GradeManagement | AttendanceMgmt
    | StudentMgmt | AdmissionsMgmt | ParentMgmt
    | StaffMgmt | HrOps
    | FinanceOps | FeeMgmt | Invoicing | Payments
    | LibraryMgmt | TransportMgmt | FacilitiesMgmt | HealthRecords

  function PermissionName(p: Permission): string
  {
    match p
    case AllAccess => "ALL_ACCESS"
    case SystemSettings => "SYSTEM_SETTINGS"
    case AcademicOps => "ACADEMIC_OPS"
    case DeptManagement => "DEPT_MANAGEMENT"
    case ClassManagement => "CLASS_MANAGEMENT"
    case GradeManagement => "GRADE_MANAGEMENT"
    case AttendanceMgmt => "ATTENDANCE_MGMT"
    case StudentMgmt => "STUDENT_MGMT"
    case AdmissionsMgmt => "ADMISSIONS_MGMT"
    case ParentMgmt => "PARENT_MGMT"
    case StaffMgmt => "STAFF_MGMT"
    case HrOps => "HR_OPS"
    case FinanceOps => "FINANCE_OPS"
    case FeeMgmt => "FEE_MGMT"
    case Invoicing => "INVOICING"
    case Payments => "PAYMENTS"
    case LibraryMgmt => "LIBRARY_MGMT"
    case TransportMgmt => "TRANSPORT_MGMT"
    case FacilitiesMgmt => "FACILITIES_MGMT"
    case HealthRecords => "HEALTH_RECORDS"
  }

  /** `Object.values(Permission)`, in declaration order. */
  const Permissions: seq<Permission> :=
    [
      AllAccess, SystemSettings, AcademicOps, DeptManagement, ClassManagement,
      GradeManagement, AttendanceMgmt, StudentMgmt, AdmissionsMgmt, ParentMgmt,
      StaffMgmt, HrOps, FinanceOps, FeeMgmt, Invoicing, Payments, LibraryMgmt,
      TransportMgmt, FacilitiesMgmt, HealthRecords
    ]

  lemma PermissionsComplete(p: Permission)
    ensures p in Permissions
  {
  }

  /** `Object.values(Permission).includes(s)`, returning the member found. */
  function ParsePermission(s: string): (r: Option<Permission>)
  {
    FindPermission(s, Permissions, 0)
  }

  /** The first of `ps` from position `i` on that is named `s`. */
  function FindPermission(s: string, ps: seq<Permission>, i: nat): (r: Option<Permission>)
    requires i <= |ps|
    ensures r.Some? ==> PermissionName(r.value) == s
    ensures r.None? ==> forall k :: i <= k < |ps| ==> PermissionName(ps[k]) != s
    decreases |ps| - i
  {
    if i == |ps| then None
    else if PermissionName(ps[i]) == s then Some(ps[i])
    else FindPermission(s, ps, i + 1)
  }

  /** Length and first two characters tell the permission names apart. */
  function PermissionOfKey(key: int): Option<Permission>
  {
    if key == 42953932876 then Some(AllAccess)
    else if key == 64429949017 then Some(SystemSettings)
    else if key == 51543867459 then Some(AcademicOps)
    else if key == 64428965957 then Some(DeptManagement)
    else if key == 68723867724 then Some(ClassManagement)
    else if key == 68724129874 then Some(GradeManagement)
    else if key == 64428769364 then Some(AttendanceMgmt)
    else if key == 51545047124 then Some(StudentMgmt)
    else if key == 64428769348 then Some(AdmissionsMgmt)
    else if key == 47249883201 then Some(ParentMgmt)
    else if key == 42955112532 then Some(StaffMgmt)
    else if key == 25774522450 then Some(HrOps)
    else if key == 47249227849 then Some(FinanceOps)
    else if key == 34364325957 then Some(FeeMgmt)
    else if key == 38659489870 then Some(Invoicing)
    else if key == 34364981313 then Some(Payments)
    else if key == 51544588361 then Some(LibraryMgmt)
    else if key == 60135047250 then Some(TransportMgmt)
    else if key == 64429097025 then Some(FacilitiesMgmt)
    else if key == 60134260805 then Some(HealthRecords)
    else None
  }

  lemma PermissionKeyA(p: Permission)
    requires p.AllAccess? || p.SystemSettings? || p.AcademicOps? || p.DeptManagement? || p.ClassManagement?
    ensures PermissionOfKey(NameKey(PermissionName(p))) == Some(p)
  {
    match p
    case AllAccess => assert NameKey("ALL_ACCESS") == 42953932876;
    case SystemSettings => assert NameKey("SYSTEM_SETTINGS") == 64429949017;
    case AcademicOps => assert NameKey("ACADEMIC_OPS") == 51543867459;
    case DeptManagement => assert NameKey("DEPT_MANAGEMENT") == 64428965957;
    case ClassManagement => assert NameKey("CLASS_MANAGEMENT") == 68723867724;
  }

  lemma PermissionKeyB(p: Permission)
    requires p.GradeManagement? || p.AttendanceMgmt? || p.StudentMgmt? || p.AdmissionsMgmt? || p.ParentMgmt?
    ensures PermissionOfKey(NameKey(PermissionName(p))) == Some(p)
  {
    match p
    case GradeManagement => assert NameKey("GRADE_MANAGEMENT") == 68724129874;
    case AttendanceMgmt => assert NameKey("ATTENDANCE_MGMT") == 64428769364;
    case StudentMgmt => assert NameKey("STUDENT_MGMT") == 51545047124;
    case AdmissionsMgmt => assert NameKey("ADMISSIONS_MGMT") == 64428769348;
    case ParentMgmt => assert NameKey("PARENT_MGMT") == 47249883201;
  }

  lemma PermissionKeyC(p: Permission)
    requires p.StaffMgmt? || p.HrOps? || p.FinanceOps? || p.FeeMgmt? || p.Invoicing?
    ensures PermissionOfKey(NameKey(PermissionName(p))) == Some(p)
  {
    match p
    case StaffMgmt => assert NameKey("STAFF_MGMT") == 42955112532;
    case HrOps => assert NameKey("HR_OPS") == 25774522450;
    case FinanceOps => assert NameKey("FINANCE_OPS") == 47249227849;
    case FeeMgmt => assert NameKey("FEE_MGMT") == 34364325957;
    case Invoicing => assert NameKey("INVOICING") == 38659489870;
  }

  lemma PermissionKeyD(p: Permission)
    requires p.Payments? || p.LibraryMgmt? || p.TransportMgmt? || p.FacilitiesMgmt? || p.HealthRecords?
    ensures PermissionOfKey(NameKey(PermissionName(p))) == Some(p)
  {
    match p
    case Payments => assert NameKey("PAYMENTS") == 34364981313;
    case LibraryMgmt => assert NameKey("LIBRARY_MGMT") == 51544588361;
    case TransportMgmt => assert NameKey("TRANSPORT_MGMT") == 60135047250;
    case FacilitiesMgmt => assert NameKey("FACILITIES_MGMT") == 64429097025;
    case HealthRecords => assert NameKey("HEALTH_RECORDS") == 60134260805;
  }

  /** Each permission name is told apart by its key. */
  lemma PermissionKey(p: Permission)
    ensures PermissionOfKey(NameKey(PermissionName(p))) == Some(p)
  {
    match p
    case AllAccess | SystemSettings | AcademicOps | DeptManagement | ClassManagement =>
      PermissionKeyA(p);
    case GradeManagement | AttendanceMgmt | StudentMgmt | AdmissionsMgmt | ParentMgmt =>
      PermissionKeyB(p);
    case StaffMgmt | HrOps | FinanceOps | FeeMgmt | Invoicing =>
      PermissionKeyC(p);
    case Payments | LibraryMgmt | TransportMgmt | FacilitiesMgmt | HealthRecords =>
      PermissionKeyD(p);
  }

  lemma PermissionNameInjective(p: Permission, q: Permission)
    requires PermissionName(p) == PermissionName(q)
    ensures p == q
  {
    PermissionKey(p);
    PermissionKey(q);
  }

  /** The `enum: Permission` validator on the staff document's permission
      list accepts exactly the permission names, and each name is read back
      as the permission it names. */
  lemma ParsePermissionExact(s: string)
    ensures ParsePermission(s).Some? <==> exists p :: PermissionName(p) == s
    ensures ParsePermission(s).Some? ==> PermissionName(ParsePermission(s).value) == s
  {
    if p :| PermissionName(p) == s {
      PermissionsComplete(p);
      var k :| 0 <= k < |Permissions| && Permissions[k] == p;
    }
  }

  lemma ParsePermissionName(p: Permission)
    ensures ParsePermission(PermissionName(p)) == Some(p)
  {
    ParsePermissionExact(PermissionName(p));
    PermissionNameInjective(ParsePermission(PermissionName(p)).value, p);
  }

  // ---------------------------------------------------------------------------
  // Records
  // ---------------------------------------------------------------------------

  /** A user document. `tokenVersion` is `None` for a document written before
      the field existed (the schema default is 0 for new documents). */
  datatype User = User(
    firstName: string,
    lastName: string,
    email: string,
    phone: string,
    password: Digest,
    role: UserRole,
    tenantId: Id,
    isActive: bool,
    tokenVersion: Option<int>,
    passwordChangedAt: Option<int>)

  /** Mongoose's `required` check on the user's string fields, which
      rejects the empty string. */
  predicate UserDocumentValid(u: User)
  {
    u.firstName != "" && u.lastName != "" && u.email != "" && u.phone != "" && u.tenantId != ""
  }

  /** `user.tokenVersion ?? 0`. */
  function TokenVersionOrZero(u: User): int
  {
    match u.tokenVersion
    case Some(v) => v
    case None => 0
  }

  datatype OperatingHour = OperatingHour(day: string, open: string, close: string)

  /** A school (tenant) document: the registration fields, the verification
      flag and the profile fields written by the school profile service. */
  datatype School = School(
    schoolName: string,
    schoolType: SchoolType,
    curricula: seq<CurriculumType>,
    adminEmail: string,
    gesCode: Option<string>,
    digitalAddress: string,
    region: string,
    city: string,
    isVerified: bool,
    logoUrl: Option<string>,
    description: Option<string>,
    contactEmail: Option<string>,
    contactPhone: Option<string>,
    websiteUrl: Option<string>,
    socials: map<string, string>,
    operatingHours: Option<seq<OperatingHour>>,
    profileCompleted: bool)

  /** Mongoose's `required` check on the school's string fields; the type
      and the curricula are enum values by construction. */
  predicate SchoolDocumentValid(s: School)
  {
    s.schoolName != "" && s.adminEmail != "" && s.digitalAddress != "" && s.region != ""
  }

  datatype StaffRecord = StaffRecord(
    userId: Id,
    tenantId: Id,
    role: StaffRole,
    department: Option<string>,
    classes: seq<string>,
    subjects: seq<string>,
    additionalPermissions: seq<string>,
    status: StaffStatus,
    employmentStartDate: Option<int>,
    employmentType: Option<string>,
    staffId: Option<string>)

  /** Dates are instants in milliseconds. */
  datatype AcademicYear = AcademicYear(
    name: string,
    startDate: int,
    endDate: int,
    isCurrent: bool,
    isArchived: bool,
    tenantId: Id)

  datatype Term = Term(
    name: string,
    academicYearId: Id,
    startDate: int,
    endDate: int,
    isActive: bool,
    isCompleted: bool,
    tenantId: Id)

  /** Mongoose's `required` check on a year's string fields, which rejects
      the empty string. */
  predicate YearDocumentValid(y: AcademicYear)
  {
    y.name != "" && y.tenantId != ""
  }

  /** Mongoose's `required` check on a term's string fields. */
  predicate TermDocumentValid(t: Term)
  {
    t.name != "" && t.academicYearId != "" && t.tenantId != ""
  }

  // ---------------------------------------------------------------------------
  // Queries and the unique indexes
  // ---------------------------------------------------------------------------

  /** `userModel.findOne({ email })` finds a document. */
  predicate EmailTaken(users: map<Id, User>, email: string)
  {
    exists id :: id in users && users[id].email == email
  }

  /** `schoolModel.findOne({ schoolName })` finds a document. */
  predicate SchoolNameTaken(schools: map<Id, School>, name: string)
  {
    exists id :: id in schools && schools[id].schoolName == name
  }

  /** The unique index on `User.email`. */
  predicate UniqueEmails(users: map<Id, User>)
  {
    forall a, b :: a in users && b in users && users[a].email == users[b].email ==> a == b
  }

  /** The unique index on `School.schoolName`. */
  predicate UniqueSchoolNames(schools: map<Id, School>)
  {
    forall a, b :: a in schools && b in schools && schools[a].schoolName == schools[b].schoolName ==> a == b
  }
}
