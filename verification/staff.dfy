/** Staff onboarding (`StaffService`): the default permissions of each staff
    role, manual creation of a staff member with a platform login, and the
    CSV bulk import that feeds each row through manual creation. */
module Staff {
  import opened Common
  import opened Text
  import opened Schemas

  // Messages of the errors and results the service returns.
  const StaffEmailConflict: string := "A user with this email already exists"
  const SchoolNotVerified: string := "School not verified"
  const CsvRequired: string := "CSV file is required"
  const CsvTooShort: string := "CSV must include header and at least one row"
  const MissingColumnPrefix: string := "Missing column: "
  const BulkImportQueued: string := "Bulk import queued"
  const InvalidRolePrefix: string := "Invalid role at line "

  predicate NoDuplicates<T(==)>(s: seq<T>)
  {
    forall i, j :: 0 <= i < j < |s| ==> s[i] != s[j]
  }

  // ---------------------------------------------------------------------------
  // Permissions
  // ---------------------------------------------------------------------------

  /** `getDefaultPermissions`: every role gets at least one permission, and
      only the principal gets `ALL_ACCESS`, alone. */
  function DefaultPermissions(role: StaffRole): (ps: seq<Permission>)
    ensures |ps| >= 1 && NoDuplicates(ps)
    ensures AllAccess in ps <==> role == Principal
    ensures role == Principal ==> ps == [AllAccess]
  {
    match role
    case Principal => [AllAccess]
    case VicePrincipal => [AcademicOps, StaffMgmt, StudentMgmt]
    case HeadOfDepartment => [DeptManagement, ClassManagement]
    case TeacherRole => [ClassManagement, GradeManagement, AttendanceMgmt]
    case TeachingAssistant => [AttendanceMgmt, GradeManagement]
    case SchoolAdministrator => [StudentMgmt, StaffMgmt]
    case AdmissionOfficer => [AdmissionsMgmt]
    case HumanResources => [HrOps, StaffMgmt]
    case FinanceManager => [FinanceOps, FeeMgmt, Invoicing]
    case Accountant => [FeeMgmt, Invoicing, Payments]
    case Bursar => [Payments]
    case ItAdministrator => [SystemSettings]
    case Librarian => [LibraryMgmt]
    case Nurse => [HealthRecords]
    case Counselor => [StudentMgmt]
    case TransportManager => [TransportMgmt]
    case FacilitiesManager => [FacilitiesMgmt]
  }

  function PermissionNames(ps: seq<Permission>): (names: seq<string>)
    ensures |names| == |ps|
    ensures forall i :: 0 <= i < |ps| ==> names[i] == PermissionName(ps[i])
  {
    if ps == [] then [] else [PermissionName(ps[0])] + PermissionNames(ps[1..])
  }

  /** The index of the first occurrence of `x` in `s`. */
  function FirstIndex(s: seq<string>, x: string): (k: nat)
    requires x in s
    ensures k < |s| && s[k] == x && forall m :: 0 <= m < k ==> s[m] != x
  {
    if s[0] == x then 0
    else
      var k := FirstIndex(s[1..], x);
      assert forall m :: 1 <= m < k + 1 ==> s[m] == s[1..][m - 1];
      1 + k
  }

  /** An element of a prefix is first found inside that prefix. */
  lemma {:induction false} FirstIndexInPrefix(a: seq<string>, b: seq<string>, x: string)
    requires x in a
    ensures FirstIndex(a + b, x) == FirstIndex(a, x)
  {
    var k, k' := FirstIndex(a, x), FirstIndex(a + b, x);
    assert (a + b)[k] == x && (a + b)[k'] == x;
  }

  /** `Array.from(new Set(s))`: each element once; `DedupOrder` shows the
      elements come in the order of their first occurrence in `s`. */
  function Dedup(s: seq<string>): (r: seq<string>)
    ensures NoDuplicates(r)
    ensures forall x :: x in r <==> x in s
    ensures |r| <= |s|
  {
    if s == [] then []
    else
      var init := s[..|s| - 1];
      var d := Dedup(init);
      assert s == init + [s[|s| - 1]];
      if s[|s| - 1] in d then d else d + [s[|s| - 1]]
  }

  /** Of two kept elements, the one first seen earlier in `s` comes first. */
  lemma {:induction false} DedupOrder(s: seq<string>)
    ensures forall i, j :: 0 <= i < j < |Dedup(s)| ==> FirstIndex(s, Dedup(s)[i]) < FirstIndex(s, Dedup(s)[j])
    decreases |s|
  {
    if s != [] {
      var init := s[..|s| - 1];
      var last := s[|s| - 1];
      var d := Dedup(init);
      DedupOrder(init);
      assert s == init + [last];
      var r := Dedup(s);
      assert r == if last in d then d else d + [last];
      forall i, j | 0 <= i < j < |r| ensures FirstIndex(s, r[i]) < FirstIndex(s, r[j]) {
        assert r[i] == d[i];
        FirstIndexInPrefix(init, [last], d[i]);
        if j < |d| {
          assert r[j] == d[j];
          FirstIndexInPrefix(init, [last], d[j]);
          assert FirstIndex(init, d[i]) < FirstIndex(init, d[j]);
        } else {
          assert r[j] == last && last !in init;
          assert FirstIndex(s, last) == |init|;
          assert FirstIndex(s, r[i]) < |init|;
        }
      }
    }
  }

  lemma {:induction false} DedupOfDistinct(a: seq<string>)
    requires NoDuplicates(a)
    ensures Dedup(a) == a
    decreases |a|
  {
    if a != [] {
      var init := a[..|a| - 1];
      DedupOfDistinct(init);
      assert a[|a| - 1] !in init by {
        forall i | 0 <= i < |init| ensures init[i] != a[|a| - 1] {
          assert init[i] == a[i];
        }
      }
      assert a == init + [a[|a| - 1]];
    }
  }

  /** Duplicates are dropped after the first occurrence, so a duplicate-free
      prefix comes through unchanged and first. */
  lemma {:induction false} DedupKeepsDistinctPrefix(a: seq<string>, b: seq<string>)
    requires NoDuplicates(a)
    ensures |Dedup(a + b)| >= |a| && Dedup(a + b)[..|a|] == a
    decreases |b|
  {
    if b == [] {
      assert a + b == a;
      DedupOfDistinct(a);
    } else {
      var ab := a + b;
      assert ab[..|ab| - 1] == a + b[..|b| - 1];
      DedupKeepsDistinctPrefix(a, b[..|b| - 1]);
    }
  }

  /** The permission list a staff document stores: the role's defaults,
      then the additional ones, without duplicates. */
  function StoredPermissions(role: StaffRole, additional: seq<string>): (ps: seq<string>)
    ensures NoDuplicates(ps)
    ensures forall p :: p in ps <==> p in PermissionNames(DefaultPermissions(role)) || p in additional
  {
    Dedup(PermissionNames(DefaultPermissions(role)) + additional)
  }

  /** The defaults come first and in their own order; `ALL_ACCESS` appears
      only for the principal unless it was asked for explicitly. */
  lemma StoredPermissionsShape(role: StaffRole, additional: seq<string>)
    ensures var defaults := PermissionNames(DefaultPermissions(role));
      |StoredPermissions(role, additional)| >= |defaults|
      && StoredPermissions(role, additional)[..|defaults|] == defaults
    ensures "ALL_ACCESS" !in additional ==>
      ("ALL_ACCESS" in StoredPermissions(role, additional) <==> role == Principal)
  {
    var ps := DefaultPermissions(role);
    var defaults := PermissionNames(ps);
    assert NoDuplicates(defaults) by {
      forall i, j | 0 <= i < j < |defaults| ensures defaults[i] != defaults[j] {
        if defaults[i] == defaults[j] {
          PermissionNameInjective(ps[i], ps[j]);
        }
      }
    }
    DedupKeepsDistinctPrefix(defaults, additional);
    if "ALL_ACCESS" in defaults {
      var i :| 0 <= i < |defaults| && defaults[i] == "ALL_ACCESS";
      PermissionNameInjective(ps[i], AllAccess);
    }
    if role == Principal {
      assert defaults[0] == "ALL_ACCESS";
    }
  }

  /** The staff schema's `enum: Permission` validator. */
  predicate AllPermissionNames(ps: seq<string>)
  {
    forall i :: 0 <= i < |ps| ==> ParsePermission(ps[i]).Some?
  }

  /** The stored list keeps the order in which each permission first
      appears among the role's defaults followed by the additional ones. */
  lemma StoredPermissionsOrder(role: StaffRole, additional: seq<string>)
    ensures var all := PermissionNames(DefaultPermissions(role)) + additional;
      var ps := StoredPermissions(role, additional);
      forall i, j :: 0 <= i < j < |ps| ==> FirstIndex(all, ps[i]) < FirstIndex(all, ps[j])
  {
    DedupOrder(PermissionNames(DefaultPermissions(role)) + additional);
  }

  /** The stored list passes the validator exactly when every additional
      entry is a permission name. */
  lemma StoredPermissionsValid(role: StaffRole, additional: seq<string>)
    ensures AllPermissionNames(StoredPermissions(role, additional)) <==> AllPermissionNames(additional)
  {
    var ps := StoredPermissions(role, additional);
    var defaults := PermissionNames(DefaultPermissions(role));
    forall i | 0 <= i < |defaults| ensures ParsePermission(defaults[i]).Some? {
      ParsePermissionName(DefaultPermissions(role)[i]);
    }
    if AllPermissionNames(additional) {
      forall i | 0 <= i < |ps| ensures ParsePermission(ps[i]).Some? {
        assert ps[i] in defaults || ps[i] in additional;
      }
    }
    if AllPermissionNames(ps) {
      forall i | 0 <= i < |additional| ensures ParsePermission(additional[i]).Some? {
        assert additional[i] in ps;
      }
    }
  }

  // ---------------------------------------------------------------------------
  // Manual creation
  // ---------------------------------------------------------------------------

  /** `CreateStaffDto`; optional fields are `None` when absent. */
  datatype StaffInput = StaffInput(
    firstName: string,
    lastName: string,
    email: string,
    phone: Option<string>,
    role: StaffRole,
    department: Option<string>,
    classes: Option<seq<string>>,
    subjects: Option<seq<string>>,
    additionalPermissions: Option<seq<string>>,
    employmentStartDate: Option<int>,
    employmentType: Option<string>,
    staffId: Option<string>)

  function OrEmpty<T>(s: Option<seq<T>>): seq<T>
  {
    if s.Some? then s.value else []
  }

  /** `dto.phone || ''`. */
  function PhoneOrEmpty(phone: Option<string>): string
  {
    if phone.Some? then phone.value else ""
  }

  /** The login account created for a staff member: platform role ADMIN,
      active, a hashed temporary password. */
  function StaffUser(dto: StaffInput, tenantId: Id, tempPassword: string): (u: User)
    ensures u.role == Admin && u.isActive && u.tenantId == tenantId && u.email == dto.email
    ensures Compare(tempPassword, u.password) && u.tokenVersion == Some(0)
  {
    User(dto.firstName, dto.lastName, dto.email, PhoneOrEmpty(dto.phone), Hash(tempPassword),
         Admin, tenantId, true, Some(0), None)
  }

  function StaffRecordOf(userId: Id, tenantId: Id, dto: StaffInput): (s: StaffRecord)
    ensures s.status == PendingInvitation && s.userId == userId && s.tenantId == tenantId
  {
    StaffRecord(userId, tenantId, dto.role, dto.department, OrEmpty(dto.classes), OrEmpty(dto.subjects),
                StoredPermissions(dto.role, OrEmpty(dto.additionalPermissions)), PendingInvitation,
                dto.employmentStartDate, dto.employmentType, dto.staffId)
  }

  // ---------------------------------------------------------------------------
  // CSV parsing
  // ---------------------------------------------------------------------------

  const RequiredHeaders: seq<string> :=
    ["firstName", "lastName", "email", "phone", "role", "department", "classes", "subjects",
     "additionalPermissions"]

  predicate HasRequiredHeaders(header: seq<string>)
  {
    && "firstName" in header && "lastName" in header && "email" in header && "phone" in header
    && "role" in header && "department" in header && "classes" in header && "subjects" in header
    && "additionalPermissions" in header
  }

  /** Drops the `\r` of a `\r\n` line ending. */
  function StripCR(s: string): (r: string)
    ensures r == s || (r + "\r" == s)
  {
    if s != [] && s[|s| - 1] == '\r' then s[..|s| - 1] else s
  }

  /** A trailing `\r` is the one `StripCR` removes. */
  lemma StripCRAppended(s: string)
    ensures StripCR(s + "\r") == s
  {
    assert (s + "\r")[..|s|] == s;
  }

  /** `text.split(/\r?\n/)` from `text.split('\n')`: every piece but the last
      was followed by a line feed, so its trailing `\r` belonged to it. */
  function DropLineEnds(pieces: seq<string>): (r: seq<string>)
    requires |pieces| >= 1
    ensures |r| == |pieces| && r[|r| - 1] == pieces[|pieces| - 1]
    ensures forall i :: 0 <= i < |r| - 1 ==> r[i] == StripCR(pieces[i])
  {
    if |pieces| == 1 then pieces else [StripCR(pieces[0])] + DropLineEnds(pieces[1..])
  }

  /** `text.split(/\r?\n/).filter(Boolean)`. */
  function Lines(text: string): (lines: seq<string>)
    ensures forall i :: 0 <= i < |lines| ==> lines[i] != "" && '\n' !in lines[i]
  {
    var pieces := Split(text, '\n');
    var lines := NonEmptyOnly(DropLineEnds(pieces));
    assert forall i :: 0 <= i < |lines| ==> '\n' !in lines[i] by {
      forall i | 0 <= i < |lines| ensures '\n' !in lines[i] {
        var dropped := DropLineEnds(pieces);
        assert lines[i] in dropped;
        var k :| 0 <= k < |dropped| && dropped[k] == lines[i];
        assert '\n' !in pieces[k];
        if k < |dropped| - 1 && dropped[k] != pieces[k] {
          assert dropped[k] + "\r" == pieces[k];
          assert forall c :: c in dropped[k] ==> c in pieces[k];
        }
      }
    }
    lines
  }

  /** Every piece with a trailing `\r` dropped. */
  function StripEach(pieces: seq<string>): (r: seq<string>)
    ensures |r| == |pieces| && forall i :: 0 <= i < |r| ==> r[i] == StripCR(pieces[i])
  {
    seq(|pieces|, i requires 0 <= i < |pieces| => StripCR(pieces[i]))
  }

  /** Over two runs of pieces, every piece of the first run was followed by
      a line feed, the first run's last one included. */
  lemma {:induction false} DropLineEndsAppend(p: seq<string>, q: seq<string>)
    requires |p| >= 1 && |q| >= 1
    ensures DropLineEnds(p + q) == StripEach(p) + DropLineEnds(q)
  {
    var l, r := DropLineEnds(p + q), StripEach(p) + DropLineEnds(q);
    assert |l| == |r|;
    var d := DropLineEnds(q);
    forall i | 0 <= i < |l| ensures l[i] == r[i] {
      if i == |l| - 1 {
        assert l[i] == (p + q)[|p + q| - 1] == q[|q| - 1] == d[|d| - 1];
      } else if i >= |p| {
        assert (p + q)[i] == q[i - |p|] && l[i] == StripCR(q[i - |p|]) == d[i - |p|];
      } else {
        assert (p + q)[i] == p[i] && l[i] == StripCR(p[i]);
      }
    }
  }

  /** A text without a line feed is one line, unless it is empty. */
  lemma LinesWithoutBreak(text: string)
    requires '\n' !in text
    ensures Lines(text) == if text == "" then [] else [text]
  {
    SplitWithoutSeparator(text, '\n');
    NonEmptyOnlyAppend([text], []);
  }

  /** A line feed not preceded by `\r` ends a line: the lines of the text
      are the lines before it followed by the lines after it. */
  lemma LinesAtLineFeed(a: string, b: string)
    requires a == [] || a[|a| - 1] != '\r'
    ensures Lines(a + "\n" + b) == Lines(a) + Lines(b)
  {
    var p, q := Split(a, '\n'), Split(b, '\n');
    SplitAppend(a, b, '\n');
    assert a + "\n" + b == a + ['\n'] + b;
    DropLineEndsAppend(p, q);
    LastPieceKept(a);
    LinesJoin(a + "\n" + b, a, b);
  }

  /** The header is the file's first line: a non-empty first line ended by
      `\n` or `\r\n` is `lines[0]`. */
  lemma FirstLineIsHeader(a: string, b: string)
    requires a != "" && '\n' !in a && a[|a| - 1] != '\r'
    ensures Lines(a + "\n" + b) == [a] + Lines(b)
    ensures Lines(a + "\r\n" + b) == [a] + Lines(b)
  {
    LinesAtLineFeed(a, b);
    LinesAtCrLf(a, b);
    LinesWithoutBreak(a);
  }

  /** When the text does not end with `\r`, neither does its last piece, and
      stripping every piece is stripping all but the last. */
  lemma LastPieceKept(a: string)
    requires a == [] || a[|a| - 1] != '\r'
    ensures StripEach(Split(a, '\n')) == DropLineEnds(Split(a, '\n'))
  {
    var p := Split(a, '\n');
    SplitLastPiece(a, '\n');
    var last := p[|p| - 1];
    assert StripCR(last) == last by {
      if last != [] {
        assert last[|last| - 1] == a[|a| - 1];
      }
    }
    StripEachKeepsLast(p);
  }

  /** A `\r\n` pair ends a line and neither character is kept. */
  lemma LinesAtCrLf(a: string, b: string)
    ensures Lines(a + "\r\n" + b) == Lines(a) + Lines(b)
  {
    var a' := a + ['\r'];
    assert a + "\r\n" + b == a' + ['\n'] + b;
    SplitAppend(a', b, '\n');
    DropLineEndsAppend(Split(a', '\n'), Split(b, '\n'));
    CarriageReturnStripped(a);
    LinesJoin(a + "\r\n" + b, a, b);
  }

  /** A `\r` ending the text ends its last piece, and stripping every piece
      then removes it. */
  lemma CarriageReturnStripped(a: string)
    ensures StripEach(Split(a + ['\r'], '\n')) == DropLineEnds(Split(a, '\n'))
  {
    var p, p' := Split(a, '\n'), Split(a + ['\r'], '\n');
    SplitSnoc(a, '\r', '\n');
    var n := |p|;
    var l, r := StripEach(p'), DropLineEnds(p);
    forall i | 0 <= i < n ensures l[i] == r[i] {
      if i == n - 1 {
        assert p'[i] == p[i] + ['\r'];
        StripCRAppended(p[i]);
      } else {
        assert p'[i] == p[i];
      }
    }
  }

  /** Line ends that split the pieces of `text` into those of `a` and those
      of `b` split its lines the same way. */
  lemma LinesJoin(text: string, a: string, b: string)
    requires DropLineEnds(Split(text, '\n')) == DropLineEnds(Split(a, '\n')) + DropLineEnds(Split(b, '\n'))
    ensures Lines(text) == Lines(a) + Lines(b)
  {
    NonEmptyOnlyAppend(DropLineEnds(Split(a, '\n')), DropLineEnds(Split(b, '\n')));
    LinesUnfold(text);
    LinesUnfold(a);
    LinesUnfold(b);
  }

  /** When the last piece has no trailing `\r`, stripping every piece is
      stripping all but the last. */
  lemma {:induction false} StripEachKeepsLast(p: seq<string>)
    requires |p| >= 1 && StripCR(p[|p| - 1]) == p[|p| - 1]
    ensures StripEach(p) == DropLineEnds(p)
  {
    var l, r := StripEach(p), DropLineEnds(p);
    assert |l| == |r|;
    forall i | 0 <= i < |l| ensures l[i] == r[i] {
      if i == |p| - 1 {
        assert r[i] == p[i];
      }
    }
  }

  lemma LinesUnfold(text: string)
    ensures Lines(text) == NonEmptyOnly(DropLineEnds(Split(text, '\n')))
  {
  }

  /** `row.split(',').map((c) => c.trim())`. */
  function Columns(row: string): (cols: seq<string>)
    ensures |cols| >= 1
  {
    TrimEach(Split(row, ','))
  }

  /** `cols[idx] ?? ''`: a missing cell reads as the empty string. */
  function CellAt(cols: seq<string>, idx: nat): string
  {
    if idx < |cols| then cols[idx] else ""
  }

  /** The record `header.forEach((h, idx) => record[h] = cols[idx] ?? '')`
      builds: one entry per header name. */
  function RecordOf(header: seq<string>, cols: seq<string>): (record: map<string, string>)
    ensures forall h :: h in record <==> h in header
  {
    if header == [] then map[]
    else
      var init := header[..|header| - 1];
      assert header == init + [header[|header| - 1]];
      RecordOf(init, cols)[header[|header| - 1] := CellAt(cols, |header| - 1)]
  }

  /** When a header name repeats, the last column of that name wins; cells
      past the end of a short row are empty. */
  lemma {:induction false} RecordOfLastWins(header: seq<string>, cols: seq<string>, idx: nat)
    requires idx < |header|
    requires forall j :: idx < j < |header| ==> header[j] != header[idx]
    ensures RecordOf(header, cols)[header[idx]] == CellAt(cols, idx)
    ensures idx >= |cols| ==> RecordOf(header, cols)[header[idx]] == ""
    decreases |header|
  {
    if idx < |header| - 1 {
      var init := header[..|header| - 1];
      RecordOfLastWins(init, cols, idx);
    }
  }

  /** The `forEach` loop that fills the record. */
  method BuildRecord(header: seq<string>, cols: seq<string>) returns (record: map<string, string>)
    ensures record == RecordOf(header, cols)
  {
    record := map[];
    var i := 0;
    while i < |header|
      invariant 0 <= i <= |header|
      invariant record == RecordOf(header[..i], cols)
    {
      assert header[..i + 1][..i] == header[..i];
      record := record[header[i] := CellAt(cols, i)];
      i := i + 1;
    }
    assert header[..|header|] == header;
  }

  /** The first required header, in the listed order, that the header row
      lacks. */
  function FirstMissing(header: seq<string>, required: seq<string>): (r: Option<string>)
    ensures r.None? <==> forall k :: 0 <= k < |required| ==> required[k] in header
    ensures r.Some? ==> exists k :: 0 <= k < |required| && required[k] == r.value && r.value !in header
                                    && forall j :: 0 <= j < k ==> required[j] in header
  {
    if required == [] then None
    else if required[0] !in header then Some(required[0])
    else
      var rest := FirstMissing(header, required[1..]);
      assert forall k :: 1 <= k < |required| ==> required[k] == required[1..][k - 1];
      if rest.Some? then
        var k :| 0 <= k < |required[1..]| && required[1..][k] == rest.value && rest.value !in header
                 && forall j :: 0 <= j < k ==> required[1..][j] in header;
        assert required[k + 1] == rest.value;
        rest
      else rest
  }

  /** No required header is missing exactly when the header row holds all
      nine names. */
  lemma NoneMissingIff(header: seq<string>)
    ensures FirstMissing(header, RequiredHeaders).None? <==> HasRequiredHeaders(header)
  {
    var R := RequiredHeaders;
    assert R[0] == "firstName" && R[1] == "lastName" && R[2] == "email" && R[3] == "phone";
    assert R[4] == "role" && R[5] == "department" && R[6] == "classes" && R[7] == "subjects";
    assert R[8] == "additionalPermissions";
  }

  /** The `for (const h of requiredHeaders)` loop. */
  method CheckHeaders(header: seq<string>) returns (missing: Option<string>)
    ensures missing == FirstMissing(header, RequiredHeaders)
  {
    var k := 0;
    while k < |RequiredHeaders|
      invariant 0 <= k <= |RequiredHeaders|
      invariant FirstMissing(header, RequiredHeaders) == FirstMissing(header, RequiredHeaders[k..])
    {
      if RequiredHeaders[k] !in header {
        return Some(RequiredHeaders[k]);
      }
      assert RequiredHeaders[k..][1..] == RequiredHeaders[k + 1..];
      k := k + 1;
    }
    return None;
  }

  predicate IsListSeparator(c: char) { c == ';' || c == ',' }

  // A list cell (classes, subjects, permissions): empty gives no items;
  // otherwise it is split on the pattern "white space, ';' or ',', white
  // space". On a trimmed cell the pattern's white space is exactly what
  // trimming each piece removes, so the split is on the separator characters
  // followed by a trim of every piece.
  function ListCell(cell: string): (items: seq<string>)
    ensures cell == "" <==> items == []
  {
    if cell == "" then [] else TrimEach(SplitWhere(cell, IsListSeparator))
  }

  /** A list cell's items are the trimmed pieces of the cell cut at every
      ';' and ',': with each ';' read as ',', the pieces joined back with
      ',' give the cell again. */
  lemma ListCellPieces(cell: string)
    requires cell != ""
    ensures var commas := ReplaceWhere(cell, IsListSeparator, ',');
      && ListCell(cell) == TrimEach(Split(commas, ','))
      && JoinWith(Split(commas, ','), ',') == commas
  {
    var commas := ReplaceWhere(cell, IsListSeparator, ',');
    SplitWhereAsSplit(cell, IsListSeparator, ',');
    SplitJoin(commas, ',');
  }

  /** The items of a list cell carry no separator and no surrounding white
      space. */
  lemma ListCellItems(cell: string, i: nat)
    requires i < |ListCell(cell)|
    ensures ListCell(cell)[i] == Trim(ListCell(cell)[i])
    ensures forall j :: 0 <= j < |ListCell(cell)[i]| ==> !IsListSeparator(ListCell(cell)[i][j])
  {
    var pieces := SplitWhere(cell, IsListSeparator);
    var item := Trim(pieces[i]);
    assert ListCell(cell)[i] == item;
    TrimIdempotent(pieces[i]);
    forall j | 0 <= j < |item| ensures !IsListSeparator(item[j]) {
      TrimInfix(pieces[i], j);
      var c := item[j];
      assert c in pieces[i];
      var m :| 0 <= m < |pieces[i]| && pieces[i][m] == c;
      assert !IsListSeparator(pieces[i][m]);
    }
  }

  /** The permission column: list entries, empty ones dropped, the others
      kept in order (`NonEmptyOnlyAppend` describes the filter piece by
      piece). */
  function PermissionCell(cell: string): (ps: seq<string>)
    ensures forall i :: 0 <= i < |ps| ==> ps[i] != "" && ps[i] in ListCell(cell)
    ensures forall i :: 0 <= i < |ListCell(cell)| && ListCell(cell)[i] != "" ==> ListCell(cell)[i] in ps
  {
    var items := ListCell(cell);
    forall i | 0 <= i < |items| && items[i] != "" ensures items[i] in NonEmptyOnly(items) {
      NonEmptyOnlyKeeps(items, i);
    }
    NonEmptyOnly(items)
  }

  /** A white-space-only row, skipped by the import; `BlankRowTrims` shows
      it is exactly the row whose `trim()` is empty. */
  predicate BlankRow(row: string)
  {
    AllSpace(row)
  }

  lemma BlankRowTrims(row: string)
    ensures BlankRow(row) <==> Trim(row) == ""
  {
  }

  /** The indices of the data rows among `lines[1..to]` that the import
      processes. */
  function DataRows(lines: seq<string>, to: nat): (rows: seq<nat>)
    requires to <= |lines|
    ensures forall k :: 0 <= k < |rows| ==> 1 <= rows[k] < to && !BlankRow(lines[rows[k]])
  {
    if to <= 1 then []
    else
      var init := DataRows(lines, to - 1);
      if BlankRow(lines[to - 1]) then init
      else
        var rows := init + [to - 1];
        assert forall k :: 0 <= k < |init| ==> rows[k] == init[k];
        rows
  }

  /** The data rows come in increasing order, and every non-blank line
      after the header is one of them. */
  lemma {:induction false} DataRowsOrdered(lines: seq<string>, n: nat)
    requires n <= |lines|
    ensures var rows := DataRows(lines, n);
      && (forall k, l :: 0 <= k < l < |rows| ==> rows[k] < rows[l])
      && (forall i :: 1 <= i < n && !BlankRow(lines[i]) ==> i in rows)
    decreases n
  {
    if n > 1 {
      DataRowsOrdered(lines, n - 1);
      var init, rows := DataRows(lines, n - 1), DataRows(lines, n);
      if !BlankRow(lines[n - 1]) {
        assert rows == init + [n - 1];
        assert forall k :: 0 <= k < |init| ==> rows[k] == init[k];
        assert rows[|init|] == n - 1;
      }
    }
  }

  /** `record[key]` for a column the header check has made sure of; the
      empty string stands in for a column that is not there. */
  function Cell(record: map<string, string>, key: string): string
  {
    if key in record then record[key] else ""
  }

  /** One data row turned into the creation request: the role must be a
      staff role name, reported with line number `lineNumber`. */
  function ParseRow(header: seq<string>, row: string, lineNumber: nat): (r: Result<StaffInput>)
    ensures var record := RecordOf(header, Columns(row));
      && (r.Err? <==> ParseStaffRole(Cell(record, "role")).None?)
      && (r.Err? ==> r.error == Error(BadRequest, InvalidRolePrefix + DecimalString(lineNumber) + ": " + Cell(record, "role")))
      && (r.Ok? ==> && StaffRoleName(r.value.role) == Cell(record, "role")
                    && r.value.firstName == Cell(record, "firstName") && r.value.lastName == Cell(record, "lastName")
                    && r.value.email == Cell(record, "email") && r.value.phone == Some(Cell(record, "phone"))
                    && r.value.department == (if Cell(record, "department") == "" then None else Some(Cell(record, "department")))
                    && r.value.classes == Some(ListCell(Cell(record, "classes")))
                    && r.value.subjects == Some(ListCell(Cell(record, "subjects")))
                    && r.value.additionalPermissions == Some(PermissionCell(Cell(record, "additionalPermissions")))
                    && r.value.employmentStartDate.None? && r.value.employmentType.None? && r.value.staffId.None?)
  {
    var record := RecordOf(header, Columns(row));
    var role := ParseStaffRole(Cell(record, "role"));
    if role.None? then
      Err(Error(BadRequest, InvalidRolePrefix + DecimalString(lineNumber) + ": " + Cell(record, "role")))
    else
      Ok(StaffInput(
        Cell(record, "firstName"), Cell(record, "lastName"), Cell(record, "email"), Some(Cell(record, "phone")), role.value,
        if Cell(record, "department") == "" then None else Some(Cell(record, "department")),
        Some(ListCell(Cell(record, "classes"))), Some(ListCell(Cell(record, "subjects"))),
        Some(PermissionCell(Cell(record, "additionalPermissions"))),
        None, None, None))
  }

  datatype ImportSummary = ImportSummary(message: string, count: nat, staffIds: seq<Id>)

  /** `DataRows` grows by appending: the rows before `i` lead the rows
      before any later bound. */
  lemma {:induction false} DataRowsPrefix(lines: seq<string>, i: nat, bound: nat)
    requires i <= bound <= |lines|
    ensures DataRows(lines, i) <= DataRows(lines, bound)
    decreases bound
  {
    if i < bound {
      DataRowsPrefix(lines, i, bound - 1);
      var done, init, all := DataRows(lines, i), DataRows(lines, bound - 1), DataRows(lines, bound);
      assert init == all[..|init|] by {
        if bound > 1 && !BlankRow(lines[bound - 1]) {
          assert all == init + [bound - 1];
        }
      }
      forall k | 0 <= k < |done| ensures done[k] == all[k] {
        assert done[k] == init[k] == all[..|init|][k];
      }
    }
  }

  /** The line at index `i` parsed as a data row, reported with its
      one-based line number. */
  function RowInput(header: seq<string>, lines: seq<string>, i: nat): Result<StaffInput>
    requires i < |lines|
  {
    ParseRow(header, lines[i], i + 1)
  }

  /** Every line, parsed as a data row. */
  function ParsedRows(header: seq<string>, lines: seq<string>): (parsed: seq<Result<StaffInput>>)
    ensures |parsed| == |lines|
    ensures forall i :: 0 <= i < |lines| ==> parsed[i] == RowInput(header, lines, i)
  {
    seq(|lines|, i requires 0 <= i < |lines| => RowInput(header, lines, i))
  }

  /** The data row at line index `rows[k]` parsed and was created: `uids[k]`
      is its login account, absent from `usersBefore` and present in
      `usersAfter`, and `ids[k]` its staff document, absent from `before`
      and present in `after`, pointing at that account. */
  ghost predicate Imported(parsed: seq<Result<StaffInput>>, rows: seq<nat>, ids: seq<Id>, uids: seq<Id>,
                           before: map<Id, StaffRecord>, after: map<Id, StaffRecord>,
                           usersBefore: map<Id, User>, usersAfter: map<Id, User>,
                           tenantId: Id, tempPasswordFor: nat -> string)
    requires forall k :: 0 <= k < |rows| ==> rows[k] < |parsed|
  {
    && |ids| == |rows| && |uids| == |rows| && NoDuplicates(ids) && NoDuplicates(uids)
    && forall k :: 0 <= k < |ids| ==>
         && parsed[rows[k]].Ok?
         && uids[k] !in usersBefore && uids[k] in usersAfter
         && usersAfter[uids[k]] == StaffUser(parsed[rows[k]].value, tenantId, tempPasswordFor(rows[k]))
         && ids[k] !in before && ids[k] in after
         && after[ids[k]] == StaffRecordOf(uids[k], tenantId, parsed[rows[k]].value)
  }

  /** Creating the document for one more parsed row, under an id not yet in
      use, extends what has been imported. */
  lemma ImportedExtend(parsed: seq<Result<StaffInput>>, rows: seq<nat>, ids: seq<Id>, uids: seq<Id>,
                       before: map<Id, StaffRecord>, mid: map<Id, StaffRecord>, after: map<Id, StaffRecord>,
                       usersBefore: map<Id, User>, usersMid: map<Id, User>, usersAfter: map<Id, User>,
                       tenantId: Id, tempPasswordFor: nat -> string, row: nat, id: Id, uid: Id)
    requires forall k :: 0 <= k < |rows| ==> rows[k] < |parsed|
    requires row < |parsed|
    requires Imported(parsed, rows, ids, uids, before, mid, usersBefore, usersMid, tenantId, tempPasswordFor)
    requires before.Keys <= mid.Keys && id !in mid
    requires usersBefore.Keys <= usersMid.Keys && uid !in usersMid
    requires parsed[row].Ok?
    requires usersAfter == usersMid[uid := StaffUser(parsed[row].value, tenantId, tempPasswordFor(row))]
    requires after == mid[id := StaffRecordOf(uid, tenantId, parsed[row].value)]
    ensures Imported(parsed, rows + [row], ids + [id], uids + [uid], before, after, usersBefore, usersAfter,
                     tenantId, tempPasswordFor)
  {
    var rows', ids', uids' := rows + [row], ids + [id], uids + [uid];
    var n := |ids|;
    var dto := parsed[row].value;
    forall k | 0 <= k < |ids'|
      ensures && parsed[rows'[k]].Ok?
              && uids'[k] !in usersBefore && uids'[k] in usersAfter
              && usersAfter[uids'[k]] == StaffUser(parsed[rows'[k]].value, tenantId, tempPasswordFor(rows'[k]))
              && ids'[k] !in before && ids'[k] in after
              && after[ids'[k]] == StaffRecordOf(uids'[k], tenantId, parsed[rows'[k]].value)
    {
      if k < n {
        assert ids'[k] == ids[k] && uids'[k] == uids[k] && rows'[k] == rows[k];
        assert ids[k] in mid && uids[k] in usersMid;
      } else {
        assert ids'[k] == id && uids'[k] == uid && rows'[k] == row;
      }
    }
    forall i, j | 0 <= i < j < |ids'| ensures ids'[i] != ids'[j] && uids'[i] != uids'[j] {
      if j < n {
        assert ids'[i] == ids[i] && ids'[j] == ids[j] && uids'[i] == uids[i] && uids'[j] == uids[j];
      } else {
        assert ids'[i] == ids[i] && ids[i] in mid && uids'[i] == uids[i] && uids[i] in usersMid;
      }
    }
  }

  /** A login account saved under a new id, as a refused row leaves behind,
      keeps what has been imported. */
  lemma ImportedKeepsUser(parsed: seq<Result<StaffInput>>, rows: seq<nat>, ids: seq<Id>, uids: seq<Id>,
                          before: map<Id, StaffRecord>, after: map<Id, StaffRecord>,
                          usersBefore: map<Id, User>, usersMid: map<Id, User>,
                          tenantId: Id, tempPasswordFor: nat -> string, uid: Id, u: User)
    requires forall k :: 0 <= k < |rows| ==> rows[k] < |parsed|
    requires Imported(parsed, rows, ids, uids, before, after, usersBefore, usersMid, tenantId, tempPasswordFor)
    requires uid !in usersMid
    ensures uid !in uids
    ensures Imported(parsed, rows, ids, uids, before, after, usersBefore, usersMid[uid := u], tenantId, tempPasswordFor)
  {
  }

  /** The import stopped at the data row `stop.index`: the data rows before
      it were imported, no other staff document was added, and the only
      other account added is the stopping row's own when its refusal came
      after its account was saved. */
  ghost predicate StoppedAt(parsed: seq<Result<StaffInput>>, lines: seq<string>, stop: Stop,
                            before: map<Id, StaffRecord>, after: map<Id, StaffRecord>,
                            usersBefore: map<Id, User>, usersAfter: map<Id, User>,
                            tenantId: Id, tempPasswordFor: nat -> string)
    requires |parsed| == |lines|
  {
    var line := stop.index;
    && 1 <= line < |lines| && !BlankRow(lines[line])
    && |after| == |before| + |DataRows(lines, line)|
    && |usersAfter| == |usersBefore| + |DataRows(lines, line)| + (if stop.userLeft then 1 else 0)
    && (stop.userLeft ==> parsed[line].Ok?)
    && exists ids, uids ::
         && Imported(parsed, DataRows(lines, line), ids, uids, before, after, usersBefore, usersAfter,
                     tenantId, tempPasswordFor)
         && (stop.userLeft ==>
               exists uid :: uid !in usersBefore && uid !in uids && uid in usersAfter
                             && usersAfter[uid] == StaffUser(parsed[line].value, tenantId, tempPasswordFor(line)))
  }

  /** Refusing the data row at `stop.index` after the rows before it were
      imported, possibly leaving that row's own account behind, is where the
      import stopped. */
  lemma StoppedAtRow(parsed: seq<Result<StaffInput>>, lines: seq<string>, stop: Stop, ids: seq<Id>, uids: seq<Id>,
                     before: map<Id, StaffRecord>, after: map<Id, StaffRecord>,
                     usersBefore: map<Id, User>, usersMid: map<Id, User>, usersAfter: map<Id, User>,
                     tenantId: Id, tempPasswordFor: nat -> string)
    requires |parsed| == |lines| && 1 <= stop.index < |lines| && !BlankRow(lines[stop.index])
    requires Imported(parsed, DataRows(lines, stop.index), ids, uids, before, after, usersBefore, usersMid,
                      tenantId, tempPasswordFor)
    requires |after| == |before| + |DataRows(lines, stop.index)|
    requires |usersMid| == |usersBefore| + |DataRows(lines, stop.index)|
    requires !stop.userLeft ==> usersAfter == usersMid
    requires stop.userLeft ==>
      && parsed[stop.index].Ok?
      && exists uid :: uid !in usersMid && uid !in usersBefore
                       && usersAfter == usersMid[uid := StaffUser(parsed[stop.index].value, tenantId, tempPasswordFor(stop.index))]
    ensures StoppedAt(parsed, lines, stop, before, after, usersBefore, usersAfter, tenantId, tempPasswordFor)
  {
    var line := stop.index;
    if stop.userLeft {
      var u := StaffUser(parsed[line].value, tenantId, tempPasswordFor(line));
      var uid :| uid !in usersMid && uid !in usersBefore && usersAfter == usersMid[uid := u];
      ImportedKeepsUser(parsed, DataRows(lines, line), ids, uids, before, after, usersBefore, usersMid,
                        tenantId, tempPasswordFor, uid, u);
      assert usersAfter[uid] == u;
    }
  }

  /** A blank line adds no data row. */
  lemma DataRowsSkip(lines: seq<string>, i: nat)
    requires 1 <= i < |lines| && BlankRow(lines[i])
    ensures DataRows(lines, i + 1) == DataRows(lines, i)
  {
  }

  /** A non-blank line is the next data row. */
  lemma DataRowsNext(lines: seq<string>, i: nat)
    requires 1 <= i < |lines| && !BlankRow(lines[i])
    ensures DataRows(lines, i + 1) == DataRows(lines, i) + [i]
  {
  }

  // ---------------------------------------------------------------------------
  // The outcome of an import, as a reference
  // ---------------------------------------------------------------------------

  /** The e-mail addresses in use. */
  function Emails(users: map<Id, User>): set<string>
  {
    set id | id in users :: users[id].email
  }

  /** An e-mail is in use exactly when a user has it. */
  lemma EmailsTaken(users: map<Id, User>, e: string)
    ensures e in Emails(users) <==> EmailTaken(users, e)
  {
    if EmailTaken(users, e) {
      var id :| id in users && users[id].email == e;
    }
  }

  /** Adding a new key keeps every entry already there. */
  lemma InsertKeeps<K, V>(m: map<K, V>, k: K, v: V)
    requires k !in m
    ensures forall x :: x in m ==> x in m[k := v] && m[k := v][x] == m[x]
  {
  }

  /** A new user adds its e-mail to those in use. */
  lemma EmailsInsert(users: map<Id, User>, id: Id, u: User)
    requires id !in users
    ensures Emails(users[id := u]) == Emails(users) + {u.email}
  {
    var l, r := Emails(users[id := u]), Emails(users) + {u.email};
    forall e | e in r ensures e in l {
      if e == u.email {
        assert users[id := u][id] == u;
      } else {
        var x :| x in users && users[x].email == e;
        assert users[id := u][x] == users[x];
      }
    }
  }

  /** The error `createManual` answers `dto` with while the e-mails in
      `taken` are in use, or `None` when it creates the staff member: the
      e-mail check, the school check, then the two documents' validation. */
  function CreateRefusal(taken: set<string>, schools: map<Id, School>, tenantId: Id, dto: StaffInput,
                         tempPassword: string): Option<Error>
  {
    if dto.email in taken then Some(Error(BadRequest, StaffEmailConflict))
    else if !(tenantId in schools && schools[tenantId].isVerified) then Some(Error(BadRequest, SchoolNotVerified))
    else if !UserDocumentValid(StaffUser(dto, tenantId, tempPassword)) then Some(UnhandledError)
    else if !AllPermissionNames(OrEmpty(dto.additionalPermissions)) then Some(UnhandledError)
    else None
  }

  /** Whether `createManual` gets as far as saving the row's login account:
      the row parsed, its e-mail is free, the school is verified and the
      account passes validation. */
  predicate UserSaved(row: Result<StaffInput>, taken: set<string>, schools: map<Id, School>, tenantId: Id,
                      tempPassword: string)
  {
    && row.Ok? && row.value.email !in taken
    && tenantId in schools && schools[tenantId].isVerified
    && UserDocumentValid(StaffUser(row.value, tenantId, tempPassword))
  }

  /** The error a data row ends the import with: its parse error, else the
      creation's refusal. */
  function RowRefusal(row: Result<StaffInput>, taken: set<string>, schools: map<Id, School>, tenantId: Id,
                      tempPassword: string): Option<Error>
  {
    if row.Err? then Some(row.error) else CreateRefusal(taken, schools, tenantId, row.value, tempPassword)
  }

  /** Where an import stops: the index of the refused line, the error, and
      whether that row's login account was saved before the refusal. */
  datatype Stop = Stop(index: nat, error: Error, userLeft: bool)

  /** The reference outcome of importing the lines from index `from` on, in
      order, the e-mails in `taken` being in use at the start: a blank line
      is skipped, each created row's e-mail is in use for the rows after it,
      and the first refused row stops the import. `None` when every row is
      created. */
  function FirstRefusal(parsed: seq<Result<StaffInput>>, lines: seq<string>, from: nat, taken: set<string>,
                        schools: map<Id, School>, tenantId: Id, tempPasswordFor: nat -> string): Option<Stop>
    requires |parsed| == |lines|
    decreases |lines| - from
  {
    if from >= |lines| then None
    else if BlankRow(lines[from]) then FirstRefusal(parsed, lines, from + 1, taken, schools, tenantId, tempPasswordFor)
    else
      var row := parsed[from];
      var refusal := RowRefusal(row, taken, schools, tenantId, tempPasswordFor(from));
      if refusal.Some? then Some(Stop(from, refusal.value, UserSaved(row, taken, schools, tenantId, tempPasswordFor(from))))
      else FirstRefusal(parsed, lines, from + 1, taken + {row.value.email}, schools, tenantId, tempPasswordFor)
  }

  /** The import stops at a non-blank line, after data rows that all parsed;
      when it does not stop, every data row parsed and their e-mails were all
      free and pairwise different. */
  lemma {:induction false} FirstRefusalMeans(parsed: seq<Result<StaffInput>>, lines: seq<string>, from: nat, taken: set<string>,
                                             schools: map<Id, School>, tenantId: Id, tempPasswordFor: nat -> string)
    requires |parsed| == |lines|
    ensures var r := FirstRefusal(parsed, lines, from, taken, schools, tenantId, tempPasswordFor);
      && (r.Some? ==> && from <= r.value.index < |lines| && !BlankRow(lines[r.value.index])
                      && forall j :: from <= j < r.value.index && !BlankRow(lines[j]) ==> parsed[j].Ok?)
      && (r.None? ==> forall j :: from <= j < |lines| && !BlankRow(lines[j]) ==>
                        parsed[j].Ok? && parsed[j].value.email !in taken)
      && (r.None? ==> forall j, j' :: from <= j < j' < |lines| && !BlankRow(lines[j]) && !BlankRow(lines[j']) ==>
                        parsed[j].value.email != parsed[j'].value.email)
    decreases |lines| - from
  {
    if from < |lines| {
      if BlankRow(lines[from]) {
        FirstRefusalMeans(parsed, lines, from + 1, taken, schools, tenantId, tempPasswordFor);
      } else if RowRefusal(parsed[from], taken, schools, tenantId, tempPasswordFor(from)).None? {
        var taken' := taken + {parsed[from].value.email};
        FirstRefusalMeans(parsed, lines, from + 1, taken', schools, tenantId, tempPasswordFor);
      }
    }
  }

  /** A row whose e-mail is already in use cannot be created: the import
      stops there at the latest. */
  lemma {:induction false} TakenEmailStops(parsed: seq<Result<StaffInput>>, lines: seq<string>, from: nat, taken: set<string>,
                                           schools: map<Id, School>, tenantId: Id, tempPasswordFor: nat -> string,
                                           m: nat)
    requires |parsed| == |lines|
    requires from <= m < |lines| && !BlankRow(lines[m])
    requires parsed[m].Ok? && parsed[m].value.email in taken
    ensures var stop := FirstRefusal(parsed, lines, from, taken, schools, tenantId, tempPasswordFor);
      stop.Some? && stop.value.index <= m
    decreases m - from
  {
    if from < m {
      if BlankRow(lines[from]) {
        TakenEmailStops(parsed, lines, from + 1, taken, schools, tenantId, tempPasswordFor, m);
      } else if RowRefusal(parsed[from], taken, schools, tenantId, tempPasswordFor(from)).None? {
        var taken' := taken + {parsed[from].value.email};
        TakenEmailStops(parsed, lines, from + 1, taken', schools, tenantId, tempPasswordFor, m);
      }
    }
  }

  /** Two data rows with the same e-mail: the import cannot create both, and
      stops at the later one at the latest. */
  lemma {:induction false} DuplicateEmailStops(parsed: seq<Result<StaffInput>>, lines: seq<string>, from: nat, taken: set<string>,
                                               schools: map<Id, School>, tenantId: Id, tempPasswordFor: nat -> string,
                                               j: nat, m: nat)
    requires |parsed| == |lines|
    requires from <= j < m < |lines| && !BlankRow(lines[j]) && !BlankRow(lines[m])
    requires parsed[j].Ok? && parsed[m].Ok?
    requires parsed[j].value.email == parsed[m].value.email
    ensures var stop := FirstRefusal(parsed, lines, from, taken, schools, tenantId, tempPasswordFor);
      stop.Some? && stop.value.index <= m
    decreases j - from
  {
    if BlankRow(lines[from]) {
      DuplicateEmailStops(parsed, lines, from + 1, taken, schools, tenantId, tempPasswordFor, j, m);
    } else if RowRefusal(parsed[from], taken, schools, tenantId, tempPasswordFor(from)).None? {
      var taken' := taken + {parsed[from].value.email};
      if from == j {
        TakenEmailStops(parsed, lines, from + 1, taken', schools, tenantId, tempPasswordFor, m);
      } else {
        DuplicateEmailStops(parsed, lines, from + 1, taken', schools, tenantId, tempPasswordFor, j, m);
      }
    }
  }

  /** Unique e-mails; every staff document points at a user of its school
      and stores a valid duplicate-free permission list; ids from `nextId`
      on are unused. */
  ghost predicate StaffInvariant(users: map<Id, User>, staff: map<Id, StaffRecord>, nextId: nat)
  {
    && UniqueEmails(users)
    && (forall s :: s in staff ==> staff[s].userId in users && users[staff[s].userId].tenantId == staff[s].tenantId)
    && (forall s :: s in staff ==> AllPermissionNames(staff[s].additionalPermissions))
    && (forall s :: s in staff ==> NoDuplicates(staff[s].additionalPermissions))
    && (forall k: nat {:trigger ObjectId(k)} :: nextId <= k ==> ObjectId(k) !in users && ObjectId(k) !in staff)
  }

  /** Saving a user under the next id keeps the invariant when its e-mail is
      not taken. */
  lemma InsertUserKeepsInvariant(users: map<Id, User>, staff: map<Id, StaffRecord>, n: nat, user: User)
    requires StaffInvariant(users, staff, n)
    requires !EmailTaken(users, user.email)
    ensures ObjectId(n) !in users
    ensures StaffInvariant(users[ObjectId(n) := user], staff, n + 1)
  {
    ObjectIdFresh(n);
  }

  /** Saving a staff document under the next id keeps the invariant when it
      points at a user of its school and its permissions are valid. */
  lemma InsertStaffKeepsInvariant(users: map<Id, User>, staff: map<Id, StaffRecord>, n: nat, s: StaffRecord)
    requires StaffInvariant(users, staff, n)
    requires s.userId in users && users[s.userId].tenantId == s.tenantId
    requires AllPermissionNames(s.additionalPermissions) && NoDuplicates(s.additionalPermissions)
    ensures ObjectId(n) !in staff
    ensures StaffInvariant(users, staff[ObjectId(n) := s], n + 1)
  {
    ObjectIdFresh(n);
  }


  // ---------------------------------------------------------------------------
  // The service
  // ---------------------------------------------------------------------------

  class StaffService {
    var users: map<Id, User>
    var schools: map<Id, School>
    var staff: map<Id, StaffRecord>
    var nextId: nat

    ghost predicate Valid()
      reads this
    {
      StaffInvariant(users, staff, nextId)
    }

    constructor (schools: map<Id, School>)
      ensures Valid() && this.schools == schools && users == map[] && staff == map[]
    {
      this.schools := schools;
      users, staff, nextId := map[], map[], 0;
    }

    /** `createManual`; the invitation mail's outcome is swallowed and does
        not affect the result. */
    method CreateManual(tenantId: Id, dto: StaffInput, tempPassword: string) returns (r: Result<Id>)
      requires Valid()
      modifies this
      ensures Valid()
      ensures schools == old(schools)
      ensures EmailTaken(old(users), dto.email) ==>
        r == Err(Error(BadRequest, StaffEmailConflict)) && unchanged(this)
      ensures !EmailTaken(old(users), dto.email) && !(tenantId in schools && schools[tenantId].isVerified) ==>
        r == Err(Error(BadRequest, SchoolNotVerified)) && unchanged(this)
      ensures !EmailTaken(old(users), dto.email) && tenantId in schools && schools[tenantId].isVerified ==>
        if !UserDocumentValid(StaffUser(dto, tenantId, tempPassword)) then
          r == Err(UnhandledError) && users == old(users) && staff == old(staff)
        else
          exists uid :: uid !in old(users) && users == old(users)[uid := StaffUser(dto, tenantId, tempPassword)]
            && if AllPermissionNames(OrEmpty(dto.additionalPermissions)) then
                 && r.Ok? && r.value !in old(staff)
                 && staff == old(staff)[r.value := StaffRecordOf(uid, tenantId, dto)]
               else
                 r == Err(UnhandledError) && staff == old(staff)
      ensures r.Err? ==> staff == old(staff)
      ensures forall s :: s in old(staff) ==> s in staff && staff[s] == old(staff)[s]
      ensures r.Ok? ==> r.value !in old(staff)
                        && exists uid :: staff == old(staff)[r.value := StaffRecordOf(uid, tenantId, dto)]
    {
      if EmailTaken(users, dto.email) {
        return Err(Error(BadRequest, StaffEmailConflict));
      }
      if !(tenantId in schools && schools[tenantId].isVerified) {
        return Err(Error(BadRequest, SchoolNotVerified));
      }
      var userId := SaveUser(StaffUser(dto, tenantId, tempPassword));
      if userId.Err? {
        return Err(userId.error);
      }
      // A staff document that fails validation leaves the saved user behind.
      StoredPermissionsValid(dto.role, OrEmpty(dto.additionalPermissions));
      r := SaveStaff(StaffRecordOf(userId.value, tenantId, dto));
    }

    /** `user.save()`: the document is validated, then stored under a fresh
        id. */
    method SaveUser(user: User) returns (r: Result<Id>)
      requires Valid() && !EmailTaken(users, user.email)
      modifies this
      ensures Valid()
      ensures schools == old(schools) && staff == old(staff)
      ensures !UserDocumentValid(user) ==> r == Err(UnhandledError) && users == old(users)
      ensures UserDocumentValid(user) ==> r.Ok? && r.value !in old(users) && users == old(users)[r.value := user]
    {
      if !UserDocumentValid(user) {
        return Err(UnhandledError);
      }
      InsertUserKeepsInvariant(users, staff, nextId, user);
      r := Ok(ObjectId(nextId));
      users, nextId := users[ObjectId(nextId) := user], nextId + 1;
    }

    /** `staff.save()`: every permission must be a known name, then the
        document is stored under a fresh id. */
    method SaveStaff(s: StaffRecord) returns (r: Result<Id>)
      requires Valid() && s.userId in users && users[s.userId].tenantId == s.tenantId
      requires NoDuplicates(s.additionalPermissions)
      modifies this
      ensures Valid()
      ensures schools == old(schools) && users == old(users)
      ensures !AllPermissionNames(s.additionalPermissions) ==> r == Err(UnhandledError) && staff == old(staff)
      ensures AllPermissionNames(s.additionalPermissions) ==>
        r.Ok? && r.value !in old(staff) && staff == old(staff)[r.value := s]
    {
      if !AllPermissionNames(s.additionalPermissions) {
        return Err(UnhandledError);
      }
      InsertStaffKeepsInvariant(users, staff, nextId, s);
      r := Ok(ObjectId(nextId));
      staff, nextId := staff[ObjectId(nextId) := s], nextId + 1;
    }

    /** `bulkImport`: `file` is the upload's text, `None` when no file or no
        buffer arrived; `tempPasswordFor(i)` is the temporary password drawn
        for line index `i`. Rows are created one by one and nothing is undone
        when a later row fails. */
    method BulkImport(tenantId: Id, file: Option<string>, tempPasswordFor: nat -> string) returns (r: Result<ImportSummary>)
      requires Valid()
      modifies this
      ensures Valid()
      ensures schools == old(schools)
      ensures forall s :: s in old(staff) ==> s in staff && staff[s] == old(staff)[s]
      ensures forall u :: u in old(users) ==> u in users && users[u] == old(users)[u]
      ensures file.None? ==> r == Err(Error(BadRequest, CsvRequired)) && unchanged(this)
      ensures file.Some? && |Lines(file.value)| < 2 ==>
        r == Err(Error(BadRequest, CsvTooShort)) && unchanged(this)
      ensures file.Some? && |Lines(file.value)| >= 2 ==>
        var lines := Lines(file.value);
        var header := Columns(lines[0]);
        && (FirstMissing(header, RequiredHeaders).Some? ==>
              r == Err(Error(BadRequest, MissingColumnPrefix + FirstMissing(header, RequiredHeaders).value))
              && unchanged(this))
        && (HasRequiredHeaders(header) ==>
              var rows := DataRows(lines, |lines|);
              var parsed := ParsedRows(header, lines);
              var stop := FirstRefusal(parsed, lines, 1, Emails(old(users)), schools, tenantId, tempPasswordFor);
              && (r.Ok? <==> stop.None?)
              && (r.Ok? ==>
                    && r.value.message == BulkImportQueued
                    && r.value.count == |r.value.staffIds| == |rows|
                    && |staff| == |old(staff)| + |rows| && |users| == |old(users)| + |rows|
                    && exists uids :: Imported(parsed, rows, r.value.staffIds, uids, old(staff), staff,
                                               old(users), users, tenantId, tempPasswordFor))
              && (r.Err? ==> r.error == stop.value.error
                             && StoppedAt(parsed, lines, stop.value, old(staff), staff, old(users), users,
                                          tenantId, tempPasswordFor)))
    {
      if file.None? {
        return Err(Error(BadRequest, CsvRequired));
      }
      var lines := Lines(file.value);
      if |lines| < 2 {
        return Err(Error(BadRequest, CsvTooShort));
      }
      var header := Columns(lines[0]);
      var missing := CheckHeaders(header);
      if missing.Some? {
        return Err(Error(BadRequest, MissingColumnPrefix + missing.value));
      }
      NoneMissingIff(header);
      var created := ImportRows(tenantId, header, lines, tempPasswordFor);
      if created.Err? {
        return Err(created.error);
      }
      r := Ok(ImportSummary(BulkImportQueued, |created.value|, created.value));
    }

    /** One non-blank data row of `bulkImport`: the role check, then the
        creation of the staff member. */
    method ImportRow(tenantId: Id, header: seq<string>, lines: seq<string>, i: nat, tempPassword: string)
      returns (r: Result<Id>)
      requires Valid() && i < |lines|
      modifies this
      ensures Valid()
      ensures schools == old(schools)
      ensures forall s :: s in old(staff) ==> s in staff && staff[s] == old(staff)[s]
      ensures var dto := RowInput(header, lines, i);
              var refusal := RowRefusal(dto, Emails(old(users)), schools, tenantId, tempPassword);
              && (r.Err? <==> refusal.Some?)
              && (r.Ok? ==>
                    && dto.Ok? && r.value !in old(staff)
                    && |staff| == |old(staff)| + 1 && |users| == |old(users)| + 1
                    && Emails(users) == Emails(old(users)) + {dto.value.email}
                    && exists uid :: && uid !in old(users)
                                     && users == old(users)[uid := StaffUser(dto.value, tenantId, tempPassword)]
                                     && staff == old(staff)[r.value := StaffRecordOf(uid, tenantId, dto.value)])
              && (r.Err? ==>
                    && r.error == refusal.value && staff == old(staff)
                    && if UserSaved(dto, Emails(old(users)), schools, tenantId, tempPassword) then
                         exists uid :: uid !in old(users) && users == old(users)[uid := StaffUser(dto.value, tenantId, tempPassword)]
                       else users == old(users))
      ensures forall u :: u in old(users) ==> u in users && users[u] == old(users)[u]
    {
      var dto := ParseRow(header, lines[i], i + 1);
      if dto.Err? {
        return Err(dto.error);
      }
      ghost var before := users;
      EmailsTaken(users, dto.value.email);
      r := CreateManual(tenantId, dto.value, tempPassword);
      if UserSaved(dto, Emails(before), schools, tenantId, tempPassword) {
        ghost var uid :| uid !in before && users == before[uid := StaffUser(dto.value, tenantId, tempPassword)]
          && (AllPermissionNames(OrEmpty(dto.value.additionalPermissions)) ==>
                r.Ok? && staff == old(staff)[r.value := StaffRecordOf(uid, tenantId, dto.value)]);
        EmailsInsert(before, uid, StaffUser(dto.value, tenantId, tempPassword));
        InsertKeeps(before, uid, StaffUser(dto.value, tenantId, tempPassword));
      } else {
        assert users == before;
      }
    }

    /** The row loop of `bulkImport`: creates the staff member of every
        non-blank line after the header, in order, stopping at the first row
        that fails. */
    method ImportRows(tenantId: Id, header: seq<string>, lines: seq<string>, tempPasswordFor: nat -> string)
      returns (r: Result<seq<Id>>)
      requires Valid() && |lines| >= 1
      modifies this
      ensures Valid()
      ensures schools == old(schools)
      ensures forall s :: s in old(staff) ==> s in staff && staff[s] == old(staff)[s]
      ensures forall u :: u in old(users) ==> u in users && users[u] == old(users)[u]
      ensures var parsed := ParsedRows(header, lines);
              var stop := FirstRefusal(parsed, lines, 1, Emails(old(users)), schools, tenantId, tempPasswordFor);
              && (r.Ok? <==> stop.None?)
              && (r.Ok? ==> && |staff| == |old(staff)| + |r.value| && |users| == |old(users)| + |r.value|
                            && exists uids :: Imported(parsed, DataRows(lines, |lines|), r.value, uids, old(staff), staff,
                                                       old(users), users, tenantId, tempPasswordFor))
              && (r.Err? ==> r.error == stop.value.error
                             && StoppedAt(parsed, lines, stop.value, old(staff), staff, old(users), users,
                                          tenantId, tempPasswordFor))
    {
      ghost var parsed := ParsedRows(header, lines);
      ghost var stop := FirstRefusal(parsed, lines, 1, Emails(users), schools, tenantId, tempPasswordFor);
      var created: seq<Id> := [];
      ghost var uids: seq<Id> := [];
      var i := 1;
      while i < |lines|
        invariant 1 <= i <= |lines|
        invariant Valid() && schools == old(schools)
        invariant forall s :: s in old(staff) ==> s in staff && staff[s] == old(staff)[s]
        invariant forall u :: u in old(users) ==> u in users && users[u] == old(users)[u]
        invariant |staff| == |old(staff)| + |created| && |users| == |old(users)| + |created|
        invariant Imported(parsed, DataRows(lines, i), created, uids, old(staff), staff, old(users), users,
                           tenantId, tempPasswordFor)
        invariant stop == FirstRefusal(parsed, lines, i, Emails(users), schools, tenantId, tempPasswordFor)
      {
        var row := lines[i];
        BlankRowTrims(row);
        if Trim(row) == "" {
          DataRowsSkip(lines, i);
          i := i + 1;
          continue;
        }
        DataRowsNext(lines, i);
        ghost var before, usersBefore := staff, users;
        var res := ImportRow(tenantId, header, lines, i, tempPasswordFor(i));
        if res.Err? {
          assert stop.value.index == i && stop.value.error == res.error;
          StoppedAtRow(parsed, lines, stop.value, created, uids, old(staff), staff, old(users), usersBefore, users,
                       tenantId, tempPasswordFor);
          return Err(res.error);
        }
        ghost var user := StaffUser(parsed[i].value, tenantId, tempPasswordFor(i));
        ghost var uid :| uid !in usersBefore && users == usersBefore[uid := user]
                         && staff == before[res.value := StaffRecordOf(uid, tenantId, parsed[i].value)];
        assert old(staff).Keys <= before.Keys && old(users).Keys <= usersBefore.Keys;
        ImportedExtend(parsed, DataRows(lines, i), created, uids, old(staff), before, staff, old(users), usersBefore, users,
                       tenantId, tempPasswordFor, i, res.value, uid);
        created, uids := created + [res.value], uids + [uid];
        i := i + 1;
      }
      r := Ok(created);
    }
  }
}
