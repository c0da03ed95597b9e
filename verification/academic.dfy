/** Academic years and terms of a school (`AcademicService`): creation with
    date and overlap checks, the current-year and active-term flags,
    archiving, completion, and the sorted listings. Dates are instants in
    milliseconds. */
module Academic {
  import opened Common
  import opened Schemas
  import opened Ordering

  datatype CreateYearInput = CreateYearInput(name: string, startDate: int, endDate: int, isCurrent: bool)

  datatype CreateTermInput = CreateTermInput(name: string, academicYearId: Id, startDate: int, endDate: int, isActive: bool)

  /** A failed insertion that hits a unique index. */
  const DuplicateKey := UnhandledError

  /** The overlap query `{ startDate: { $lte: end }, endDate: { $gte: start } }`:
      closed intervals, so sharing a boundary instant is an overlap. */
  predicate Overlap(start1: int, end1: int, start2: int, end2: int)
  {
    start1 <= end2 && end1 >= start2
  }

  predicate YearOverlapsExisting(years: map<Id, AcademicYear>, tenantId: Id, start: int, end: int)
  {
    exists id :: id in years && years[id].tenantId == tenantId
                 && Overlap(years[id].startDate, years[id].endDate, start, end)
  }

  predicate TermOverlapsExisting(terms: map<Id, Term>, tenantId: Id, yearId: Id, start: int, end: int)
  {
    exists id :: id in terms && terms[id].tenantId == tenantId && terms[id].academicYearId == yearId
                 && Overlap(terms[id].startDate, terms[id].endDate, start, end)
  }

  /** The unique index `{ tenantId, name }` on years. */
  predicate YearNameTaken(years: map<Id, AcademicYear>, tenantId: Id, name: string)
  {
    exists id :: id in years && years[id].tenantId == tenantId && years[id].name == name
  }

  /** The unique index `{ tenantId, academicYearId, name }` on terms. */
  predicate TermNameTaken(terms: map<Id, Term>, tenantId: Id, yearId: Id, name: string)
  {
    exists id :: id in terms && terms[id].tenantId == tenantId && terms[id].academicYearId == yearId
                 && terms[id].name == name
  }

  /** `updateMany({ tenantId, isCurrent: true }, { $set: { isCurrent: false } })`. */
  function ClearCurrent(years: map<Id, AcademicYear>, tenantId: Id): (r: map<Id, AcademicYear>)
    ensures r.Keys == years.Keys
    ensures forall id :: id in r && r[id].tenantId == tenantId ==> !r[id].isCurrent
    ensures forall id :: id in r ==>
      r[id] == if years[id].tenantId == tenantId then years[id].(isCurrent := false) else years[id]
  {
    map id | id in years :: if years[id].tenantId == tenantId then years[id].(isCurrent := false) else years[id]
  }

  /** `updateMany({ tenantId, academicYearId, isActive: true }, { $set: { isActive: false } })`. */
  function DeactivateTerms(terms: map<Id, Term>, tenantId: Id, yearId: Id): (r: map<Id, Term>)
    ensures r.Keys == terms.Keys
    ensures forall id :: id in r && r[id].tenantId == tenantId && r[id].academicYearId == yearId ==> !r[id].isActive
    ensures forall id :: id in r ==>
      r[id] == if terms[id].tenantId == tenantId && terms[id].academicYearId == yearId
               then terms[id].(isActive := false) else terms[id]
  {
    map id | id in terms ::
      if terms[id].tenantId == tenantId && terms[id].academicYearId == yearId
      then terms[id].(isActive := false) else terms[id]
  }

  /** `findOne({ _id, tenantId })`: the document exists and belongs to the tenant. */
  predicate OwnedYear(years: map<Id, AcademicYear>, tenantId: Id, id: Id)
  {
    id in years && years[id].tenantId == tenantId
  }

  predicate OwnedTerm(terms: map<Id, Term>, tenantId: Id, id: Id)
  {
    id in terms && terms[id].tenantId == tenantId
  }

  // ---------------------------------------------------------------------------
  // The calendar invariant
  // ---------------------------------------------------------------------------

  /** Two distinct years of the same school never overlap, are not both
      current, and have different names. */
  predicate YearsCompatible(a: AcademicYear, b: AcademicYear)
  {
    a.tenantId == b.tenantId ==>
      !Overlap(a.startDate, a.endDate, b.startDate, b.endDate) && !(a.isCurrent && b.isCurrent) && a.name != b.name
  }

  predicate SameYear(t: Term, u: Term)
  {
    t.tenantId == u.tenantId && t.academicYearId == u.academicYearId
  }

  /** Two distinct terms of the same year never overlap, are not both
      active, and have different names. */
  predicate TermsCompatible(t: Term, u: Term)
  {
    SameYear(t, u) ==>
      !Overlap(t.startDate, t.endDate, u.startDate, u.endDate) && !(t.isActive && u.isActive) && t.name != u.name
  }

  /** A term runs forwards and lies inside its year, which belongs to the
      same school. */
  predicate TermInYear(years: map<Id, AcademicYear>, t: Term)
  {
    && t.startDate < t.endDate
    && OwnedYear(years, t.tenantId, t.academicYearId)
    && years[t.academicYearId].startDate <= t.startDate
    && t.endDate <= years[t.academicYearId].endDate
  }

  predicate YearsWellFormed(years: map<Id, AcademicYear>)
  {
    && (forall id :: id in years ==> years[id].startDate < years[id].endDate)
    && (forall a, b :: a in years && b in years && a != b ==> YearsCompatible(years[a], years[b]))
  }

  predicate TermsWellFormed(years: map<Id, AcademicYear>, terms: map<Id, Term>)
  {
    && (forall id :: id in terms ==> TermInYear(years, terms[id]))
    && (forall a, b :: a in terms && b in terms && a != b ==> TermsCompatible(terms[a], terms[b]))
  }

  predicate CalendarWellFormed(years: map<Id, AcademicYear>, terms: map<Id, Term>)
  {
    YearsWellFormed(years) && TermsWellFormed(years, terms)
  }

  /** Every year of the school keeps its dates, name and school and is no
      longer current. */
  lemma {:induction false} ClearCurrentKeepsCalendar(years: map<Id, AcademicYear>, terms: map<Id, Term>, tenantId: Id)
    requires CalendarWellFormed(years, terms)
    ensures CalendarWellFormed(ClearCurrent(years, tenantId), terms)
  {
    var m := ClearCurrent(years, tenantId);
    forall a, b | a in m && b in m && a != b ensures YearsCompatible(m[a], m[b]) {
      assert YearsCompatible(years[a], years[b]);
    }
    forall id | id in terms ensures TermInYear(m, terms[id]) {
      assert TermInYear(years, terms[id]);
    }
  }

  lemma {:induction false} DeactivateKeepsCalendar(years: map<Id, AcademicYear>, terms: map<Id, Term>,
                                                   tenantId: Id, yearId: Id)
    requires CalendarWellFormed(years, terms)
    ensures CalendarWellFormed(years, DeactivateTerms(terms, tenantId, yearId))
  {
    var m := DeactivateTerms(terms, tenantId, yearId);
    forall a, b | a in m && b in m && a != b ensures TermsCompatible(m[a], m[b]) {
      assert TermsCompatible(terms[a], terms[b]);
    }
    forall id | id in m ensures TermInYear(years, m[id]) {
      assert TermInYear(years, terms[id]);
    }
  }

  /** Replacing a year by one with the same dates, school and name that is
      not current keeps the calendar well formed. */
  lemma {:induction false} RetireYearKeepsCalendar(years: map<Id, AcademicYear>, terms: map<Id, Term>, id: Id, y: AcademicYear)
    requires CalendarWellFormed(years, terms) && id in years
    requires y.startDate == years[id].startDate && y.endDate == years[id].endDate
    requires y.tenantId == years[id].tenantId && y.name == years[id].name && !y.isCurrent
    ensures CalendarWellFormed(years[id := y], terms)
  {
    var m := years[id := y];
    forall a, b | a in m && b in m && a != b ensures YearsCompatible(m[a], m[b]) {
      assert YearsCompatible(years[a], years[b]);
    }
    forall k | k in terms ensures TermInYear(m, terms[k]) {
      assert TermInYear(years, terms[k]);
    }
  }

  /** Making one year current once the school's flags are cleared keeps the
      calendar well formed. */
  lemma {:induction false} MakeCurrentKeepsCalendar(years: map<Id, AcademicYear>, terms: map<Id, Term>, tenantId: Id, id: Id)
    requires CalendarWellFormed(years, terms) && OwnedYear(years, tenantId, id)
    requires forall k :: k in years && years[k].tenantId == tenantId ==> !years[k].isCurrent
    ensures CalendarWellFormed(years[id := years[id].(isCurrent := true)], terms)
  {
    var m := years[id := years[id].(isCurrent := true)];
    forall a, b | a in m && b in m && a != b ensures YearsCompatible(m[a], m[b]) {
      assert YearsCompatible(years[a], years[b]);
    }
    forall k | k in terms ensures TermInYear(m, terms[k]) {
      assert TermInYear(years, terms[k]);
    }
  }

  /** The year `createYear` inserts keeps the calendar well formed, given the
      checks it passed and the flags it cleared. */
  lemma {:induction false} InsertYearKeepsCalendar(years: map<Id, AcademicYear>, terms: map<Id, Term>,
                                                   id: Id, y: AcademicYear)
    requires CalendarWellFormed(years, terms) && id !in years
    requires y.startDate < y.endDate
    requires !YearOverlapsExisting(years, y.tenantId, y.startDate, y.endDate)
    requires !YearNameTaken(years, y.tenantId, y.name)
    requires y.isCurrent ==> forall k :: k in years && years[k].tenantId == y.tenantId ==> !years[k].isCurrent
    ensures CalendarWellFormed(years[id := y], terms)
  {
    var m := years[id := y];
    forall a, b | a in m && b in m && a != b ensures YearsCompatible(m[a], m[b]) {
      if a == id {
        assert !Overlap(years[b].startDate, years[b].endDate, y.startDate, y.endDate) || years[b].tenantId != y.tenantId;
      } else if b == id {
        assert !Overlap(years[a].startDate, years[a].endDate, y.startDate, y.endDate) || years[a].tenantId != y.tenantId;
      } else {
        assert YearsCompatible(years[a], years[b]);
      }
    }
    forall k | k in terms ensures TermInYear(m, terms[k]) {
      assert TermInYear(years, terms[k]);
    }
  }

  lemma {:induction false} InsertTermKeepsCalendar(years: map<Id, AcademicYear>, terms: map<Id, Term>, id: Id, t: Term)
    requires CalendarWellFormed(years, terms) && id !in terms
    requires TermInYear(years, t)
    requires !TermOverlapsExisting(terms, t.tenantId, t.academicYearId, t.startDate, t.endDate)
    requires !TermNameTaken(terms, t.tenantId, t.academicYearId, t.name)
    requires t.isActive ==> forall k :: k in terms && SameYear(terms[k], t) ==> !terms[k].isActive
    ensures CalendarWellFormed(years, terms[id := t])
  {
    var m := terms[id := t];
    forall a, b | a in m && b in m && a != b ensures TermsCompatible(m[a], m[b]) {
      if a == id {
        assert !Overlap(terms[b].startDate, terms[b].endDate, t.startDate, t.endDate) || !SameYear(terms[b], t);
      } else if b == id {
        assert !Overlap(terms[a].startDate, terms[a].endDate, t.startDate, t.endDate) || !SameYear(terms[a], t);
      } else {
        assert TermsCompatible(terms[a], terms[b]);
      }
    }
  }

  lemma {:induction false} CompleteTermKeepsCalendar(years: map<Id, AcademicYear>, terms: map<Id, Term>, id: Id)
    requires CalendarWellFormed(years, terms) && id in terms
    ensures CalendarWellFormed(years, terms[id := terms[id].(isActive := false, isCompleted := true)])
  {
    var m := terms[id := terms[id].(isActive := false, isCompleted := true)];
    forall a, b | a in m && b in m && a != b ensures TermsCompatible(m[a], m[b]) {
      assert TermsCompatible(terms[a], terms[b]);
    }
    assert TermInYear(years, terms[id]);
  }

  /** Two years of a school that share a boundary instant conflict: a year
      may not start on the instant the previous one ends. */
  lemma SharedBoundaryConflicts(years: map<Id, AcademicYear>, tenantId: Id, id: Id, start: int, end: int)
    requires YearsWellFormed(years)
    requires OwnedYear(years, tenantId, id) && years[id].endDate == start && start < end
    ensures YearOverlapsExisting(years, tenantId, start, end)
  {
    assert years[id].startDate < years[id].endDate;
  }

  /** The years after `setCurrentYear`. The `updateMany` clears every
      current flag of the school, but the year document was loaded before
      it: Mongoose saves only the paths an assignment changed, so when the
      year was already current, setting `isCurrent = true` again changes
      nothing, `save()` writes nothing, and the cleared flag stays cleared. */
  function SetCurrentResult(years: map<Id, AcademicYear>, tenantId: Id, yearId: Id): map<Id, AcademicYear>
    requires yearId in years
  {
    var cleared := ClearCurrent(years, tenantId);
    if years[yearId].isCurrent then cleared else cleared[yearId := years[yearId].(isCurrent := true)]
  }

  /** After `setCurrentYear` on a year that was not current, it is the
      school's only current year; on a year that was already current, the
      school is left with no current year. Other schools' years are
      untouched either way. */
  lemma {:induction false} SetCurrentLeavesOne(years: map<Id, AcademicYear>, tenantId: Id, yearId: Id)
    requires OwnedYear(years, tenantId, yearId)
    ensures var m := SetCurrentResult(years, tenantId, yearId);
      && m.Keys == years.Keys
      && (forall id :: id in m && m[id].tenantId == tenantId ==>
            (m[id].isCurrent <==> id == yearId && !years[yearId].isCurrent))
      && (forall id :: id in m && m[id].tenantId != tenantId ==> m[id] == years[id])
  {
    var c := ClearCurrent(years, tenantId);
    var m := SetCurrentResult(years, tenantId, yearId);
    forall id | id in m && m[id].tenantId == tenantId
      ensures m[id].isCurrent <==> id == yearId && !years[yearId].isCurrent
    {
      if id != yearId || years[yearId].isCurrent {
        assert m[id] == c[id];
      }
    }
  }

  /** A repeated request is not idempotent: when the year was not current,
      setting it current twice in a row leaves the school with no current
      year. */
  lemma SetCurrentRepeatedLeavesNone(years: map<Id, AcademicYear>, tenantId: Id, yearId: Id)
    requires OwnedYear(years, tenantId, yearId) && !years[yearId].isCurrent
    ensures var m := SetCurrentResult(SetCurrentResult(years, tenantId, yearId), tenantId, yearId);
      forall id :: id in m && m[id].tenantId == tenantId ==> !m[id].isCurrent
  {
    var once := SetCurrentResult(years, tenantId, yearId);
    SetCurrentLeavesOne(years, tenantId, yearId);
    assert OwnedYear(once, tenantId, yearId) && once[yearId].isCurrent;
    SetCurrentLeavesOne(once, tenantId, yearId);
  }

  /** Clearing the current flags changes none of the queries `createYear`
      runs afterwards. */
  lemma ClearCurrentKeepsQueries(years: map<Id, AcademicYear>, tenantId: Id, start: int, end: int, name: string)
    ensures YearOverlapsExisting(ClearCurrent(years, tenantId), tenantId, start, end)
        == YearOverlapsExisting(years, tenantId, start, end)
    ensures YearNameTaken(ClearCurrent(years, tenantId), tenantId, name) == YearNameTaken(years, tenantId, name)
  {
    var m := ClearCurrent(years, tenantId);
    if YearOverlapsExisting(years, tenantId, start, end) {
      var id :| id in years && years[id].tenantId == tenantId && Overlap(years[id].startDate, years[id].endDate, start, end);
      assert m[id].startDate == years[id].startDate;
    }
    if YearNameTaken(years, tenantId, name) {
      var id :| id in years && years[id].tenantId == tenantId && years[id].name == name;
      assert m[id].name == name;
    }
  }

  /** Deactivating terms changes none of the queries `createTerm` runs
      afterwards. */
  lemma DeactivateKeepsQueries(terms: map<Id, Term>, tenantId: Id, yearId: Id, start: int, end: int, name: string)
    ensures TermOverlapsExisting(DeactivateTerms(terms, tenantId, yearId), tenantId, yearId, start, end)
        == TermOverlapsExisting(terms, tenantId, yearId, start, end)
    ensures TermNameTaken(DeactivateTerms(terms, tenantId, yearId), tenantId, yearId, name)
        == TermNameTaken(terms, tenantId, yearId, name)
  {
    var m := DeactivateTerms(terms, tenantId, yearId);
    if TermOverlapsExisting(terms, tenantId, yearId, start, end) {
      var id :| id in terms && terms[id].tenantId == tenantId && terms[id].academicYearId == yearId
                && Overlap(terms[id].startDate, terms[id].endDate, start, end);
      assert m[id].startDate == terms[id].startDate;
    }
    if TermNameTaken(terms, tenantId, yearId, name) {
      var id :| id in terms && terms[id].tenantId == tenantId && terms[id].academicYearId == yearId
                && terms[id].name == name;
      assert m[id].name == name;
    }
  }

  // ---------------------------------------------------------------------------
  // Listings
  // ---------------------------------------------------------------------------

  datatype YearRow = YearRow(id: Id, year: AcademicYear)

  datatype TermRow = TermRow(id: Id, term: Term)

  /** `find({ tenantId })` restricted to the documents `ids`: the school's
      years with their ids. */
  function TenantYears(years: map<Id, AcademicYear>, tenantId: Id, ids: set<Id>): set<YearRow>
  {
    set id | id in ids && id in years && years[id].tenantId == tenantId :: YearRow(id, years[id])
  }

  /** `find({ tenantId, academicYearId })` restricted to the documents `ids`. */
  function YearTerms(terms: map<Id, Term>, tenantId: Id, yearId: Id, ids: set<Id>): set<TermRow>
  {
    set id | id in ids && id in terms && terms[id].tenantId == tenantId && terms[id].academicYearId == yearId
      :: TermRow(id, terms[id])
  }

  lemma TenantYearsStep(years: map<Id, AcademicYear>, tenantId: Id, ids: set<Id>, id: Id)
    requires id !in ids && id in years
    ensures years[id].tenantId == tenantId ==>
      && YearRow(id, years[id]) !in TenantYears(years, tenantId, ids)
      && TenantYears(years, tenantId, ids + {id}) == TenantYears(years, tenantId, ids) + {YearRow(id, years[id])}
    ensures years[id].tenantId != tenantId ==>
      TenantYears(years, tenantId, ids + {id}) == TenantYears(years, tenantId, ids)
  {
  }

  lemma YearTermsStep(terms: map<Id, Term>, tenantId: Id, yearId: Id, ids: set<Id>, id: Id)
    requires id !in ids && id in terms
    ensures terms[id].tenantId == tenantId && terms[id].academicYearId == yearId ==>
      && TermRow(id, terms[id]) !in YearTerms(terms, tenantId, yearId, ids)
      && YearTerms(terms, tenantId, yearId, ids + {id}) == YearTerms(terms, tenantId, yearId, ids) + {TermRow(id, terms[id])}
    ensures !(terms[id].tenantId == tenantId && terms[id].academicYearId == yearId) ==>
      YearTerms(terms, tenantId, yearId, ids + {id}) == YearTerms(terms, tenantId, yearId, ids)
  {
  }

  lemma MultisetOfSetPlusOne<T>(a: set<T>, y: T)
    requires y !in a
    ensures multiset(a + {y}) == multiset(a) + multiset{y}
  {
  }

  /** `sort({ startDate: -1 })`: newest first. */
  function NewestFirst(r: YearRow): int { -r.year.startDate }

  /** `sort({ startDate: 1 })`: earliest first. */
  function EarliestFirst(r: TermRow): int { r.term.startDate }

  // ---------------------------------------------------------------------------
  // The service
  // ---------------------------------------------------------------------------

  class AcademicService {
    var years: map<Id, AcademicYear>
    var terms: map<Id, Term>
    var nextId: nat

    ghost predicate Valid()
      reads this
    {
      && CalendarWellFormed(years, terms)
      && (forall k: nat {:trigger ObjectId(k)} :: nextId <= k ==> ObjectId(k) !in years && ObjectId(k) !in terms)
    }

    constructor ()
      ensures Valid() && years == map[] && terms == map[]
    {
      years, terms, nextId := map[], map[], 0;
    }

    /** The school's years, each once, newest first. */
    method ListYears(tenantId: Id) returns (rows: seq<YearRow>)
      ensures multiset(rows) == multiset(TenantYears(years, tenantId, years.Keys))
      ensures SortedBy(rows, NewestFirst)
    {
      rows := [];
      var rest := years.Keys;
      while rest != {}
        invariant rest <= years.Keys
        invariant SortedBy(rows, NewestFirst)
        invariant multiset(rows) == multiset(TenantYears(years, tenantId, years.Keys - rest))
        decreases |rest|
      {
        var id :| id in rest;
        ghost var done := years.Keys - rest;
        TenantYearsStep(years, tenantId, done, id);
        assert years.Keys - (rest - {id}) == done + {id};
        rest := rest - {id};
        if years[id].tenantId == tenantId {
          InsertBySorted(rows, YearRow(id, years[id]), NewestFirst);
          InsertByPermutes(rows, YearRow(id, years[id]), NewestFirst);
          MultisetOfSetPlusOne(TenantYears(years, tenantId, done), YearRow(id, years[id]));
          rows := InsertBy(rows, YearRow(id, years[id]), NewestFirst);
        }
      }
    }

    /** The year's terms, each once, earliest first. */
    method ListTerms(tenantId: Id, academicYearId: Id) returns (rows: seq<TermRow>)
      ensures multiset(rows) == multiset(YearTerms(terms, tenantId, academicYearId, terms.Keys))
      ensures SortedBy(rows, EarliestFirst)
    {
      rows := [];
      var rest := terms.Keys;
      while rest != {}
        invariant rest <= terms.Keys
        invariant SortedBy(rows, EarliestFirst)
        invariant multiset(rows) == multiset(YearTerms(terms, tenantId, academicYearId, terms.Keys - rest))
        decreases |rest|
      {
        var id :| id in rest;
        ghost var done := terms.Keys - rest;
        YearTermsStep(terms, tenantId, academicYearId, done, id);
        assert terms.Keys - (rest - {id}) == done + {id};
        rest := rest - {id};
        if terms[id].tenantId == tenantId && terms[id].academicYearId == academicYearId {
          InsertBySorted(rows, TermRow(id, terms[id]), EarliestFirst);
          InsertByPermutes(rows, TermRow(id, terms[id]), EarliestFirst);
          MultisetOfSetPlusOne(YearTerms(terms, tenantId, academicYearId, done), TermRow(id, terms[id]));
          rows := InsertBy(rows, TermRow(id, terms[id]), EarliestFirst);
        }
      }
    }

    method CreateYear(tenantId: Id, dto: CreateYearInput) returns (r: Result<Id>)
      requires Valid()
      modifies this
      ensures Valid()
      ensures terms == old(terms)
      ensures dto.endDate <= dto.startDate ==>
        r == Err(Error(BadRequest, "endDate must be after startDate")) && unchanged(this)
      ensures dto.startDate < dto.endDate && YearOverlapsExisting(old(years), tenantId, dto.startDate, dto.endDate) ==>
        r == Err(Error(BadRequest, "Academic year overlaps with an existing one")) && unchanged(this)
      ensures dto.startDate < dto.endDate && !YearOverlapsExisting(old(years), tenantId, dto.startDate, dto.endDate) ==>
        var cleared := if dto.isCurrent then ClearCurrent(old(years), tenantId) else old(years);
        var y := AcademicYear(dto.name, dto.startDate, dto.endDate, dto.isCurrent, false, tenantId);
        if !YearDocumentValid(y) then
          r == Err(UnhandledError) && years == cleared
        else if YearNameTaken(old(years), tenantId, dto.name) then
          r == Err(DuplicateKey) && years == cleared
        else
          && r.Ok? && r.value !in old(years)
          && years == cleared[r.value := y]
    {
      if dto.endDate <= dto.startDate {
        return Err(Error(BadRequest, "endDate must be after startDate"));
      }
      if YearOverlapsExisting(years, tenantId, dto.startDate, dto.endDate) {
        return Err(Error(BadRequest, "Academic year overlaps with an existing one"));
      }
      if dto.isCurrent {
        ClearCurrentKeepsCalendar(years, terms, tenantId);
        ClearCurrentKeepsQueries(years, tenantId, dto.startDate, dto.endDate, dto.name);
        years := ClearCurrent(years, tenantId);
      }
      var y := AcademicYear(dto.name, dto.startDate, dto.endDate, dto.isCurrent, false, tenantId);
      if !YearDocumentValid(y) {
        return Err(UnhandledError);
      }
      if YearNameTaken(years, tenantId, dto.name) {
        return Err(DuplicateKey);
      }
      var id := ObjectId(nextId);
      ObjectIdFresh(nextId);
      InsertYearKeepsCalendar(years, terms, id, y);
      years := years[id := y];
      nextId := nextId + 1;
      r := Ok(id);
    }

    method SetCurrentYear(tenantId: Id, yearId: Id) returns (r: Result<string>)
      requires Valid()
      modifies this
      ensures Valid()
      ensures terms == old(terms)
      ensures !OwnedYear(old(years), tenantId, yearId) ==>
        r == Err(Error(NotFound, "Academic year not found")) && unchanged(this)
      ensures OwnedYear(old(years), tenantId, yearId) ==>
        && r == Ok("Current academic year set")
        && years == SetCurrentResult(old(years), tenantId, yearId)
    {
      if !OwnedYear(years, tenantId, yearId) {
        return Err(Error(NotFound, "Academic year not found"));
      }
      var year := years[yearId];
      ClearCurrentKeepsCalendar(years, terms, tenantId);
      years := ClearCurrent(years, tenantId);
      // `year` still holds the flag as loaded: an unchanged flag is not saved.
      if !year.isCurrent {
        MakeCurrentKeepsCalendar(years, terms, tenantId, yearId);
        years := years[yearId := year.(isCurrent := true)];
      }
      r := Ok("Current academic year set");
    }

    method ArchiveYear(tenantId: Id, yearId: Id) returns (r: Result<string>)
      requires Valid()
      modifies this
      ensures Valid()
      ensures terms == old(terms)
      ensures !OwnedYear(old(years), tenantId, yearId) ==>
        r == Err(Error(NotFound, "Academic year not found")) && unchanged(this)
      ensures OwnedYear(old(years), tenantId, yearId) ==>
        && r == Ok("Academic year archived")
        && years == old(years)[yearId := old(years)[yearId].(isArchived := true, isCurrent := false)]
    {
      if !OwnedYear(years, tenantId, yearId) {
        return Err(Error(NotFound, "Academic year not found"));
      }
      RetireYearKeepsCalendar(years, terms, yearId, years[yearId].(isArchived := true, isCurrent := false));
      years := years[yearId := years[yearId].(isArchived := true, isCurrent := false)];
      r := Ok("Academic year archived");
    }

    method CreateTerm(tenantId: Id, dto: CreateTermInput) returns (r: Result<Id>)
      requires Valid()
      modifies this
      ensures Valid()
      ensures years == old(years)
      ensures dto.endDate <= dto.startDate ==>
        r == Err(Error(BadRequest, "endDate must be after startDate")) && unchanged(this)
      ensures dto.startDate < dto.endDate && !OwnedYear(old(years), tenantId, dto.academicYearId) ==>
        r == Err(Error(BadRequest, "Academic year not found")) && unchanged(this)
      ensures dto.startDate < dto.endDate && OwnedYear(old(years), tenantId, dto.academicYearId) ==>
        var y := old(years)[dto.academicYearId];
        if dto.startDate < y.startDate || dto.endDate > y.endDate then
          r == Err(Error(BadRequest, "Term must be within the academic year dates")) && unchanged(this)
        else if TermOverlapsExisting(old(terms), tenantId, dto.academicYearId, dto.startDate, dto.endDate) then
          r == Err(Error(BadRequest, "Term dates conflict with an existing term")) && unchanged(this)
        else
          var cleared := if dto.isActive then DeactivateTerms(old(terms), tenantId, dto.academicYearId) else old(terms);
          var t := Term(dto.name, dto.academicYearId, dto.startDate, dto.endDate, dto.isActive, false, tenantId);
          if !TermDocumentValid(t) then
            r == Err(UnhandledError) && terms == cleared
          else if TermNameTaken(old(terms), tenantId, dto.academicYearId, dto.name) then
            r == Err(DuplicateKey) && terms == cleared
          else
            && r.Ok? && r.value !in old(terms)
            && terms == cleared[r.value := t]
    {
      if dto.endDate <= dto.startDate {
        return Err(Error(BadRequest, "endDate must be after startDate"));
      }
      if !OwnedYear(years, tenantId, dto.academicYearId) {
        return Err(Error(BadRequest, "Academic year not found"));
      }
      var year := years[dto.academicYearId];
      if dto.startDate < year.startDate || dto.endDate > year.endDate {
        return Err(Error(BadRequest, "Term must be within the academic year dates"));
      }
      if TermOverlapsExisting(terms, tenantId, dto.academicYearId, dto.startDate, dto.endDate) {
        return Err(Error(BadRequest, "Term dates conflict with an existing term"));
      }
      if dto.isActive {
        DeactivateKeepsCalendar(years, terms, tenantId, dto.academicYearId);
        DeactivateKeepsQueries(terms, tenantId, dto.academicYearId, dto.startDate, dto.endDate, dto.name);
        terms := DeactivateTerms(terms, tenantId, dto.academicYearId);
      }
      var t := Term(dto.name, dto.academicYearId, dto.startDate, dto.endDate, dto.isActive, false, tenantId);
      if !TermDocumentValid(t) {
        return Err(UnhandledError);
      }
      if TermNameTaken(terms, tenantId, dto.academicYearId, dto.name) {
        return Err(DuplicateKey);
      }
      var id := ObjectId(nextId);
      ObjectIdFresh(nextId);
      InsertTermKeepsCalendar(years, terms, id, t);
      terms := terms[id := t];
      nextId := nextId + 1;
      r := Ok(id);
    }

    method MarkTermCompleted(tenantId: Id, termId: Id) returns (r: Result<string>)
      requires Valid()
      modifies this
      ensures Valid()
      ensures years == old(years)
      ensures !OwnedTerm(old(terms), tenantId, termId) ==>
        r == Err(Error(NotFound, "Term not found")) && unchanged(this)
      ensures OwnedTerm(old(terms), tenantId, termId) ==>
        && r == Ok("Term marked as completed")
        && terms == old(terms)[termId := old(terms)[termId].(isActive := false, isCompleted := true)]
    {
      if !OwnedTerm(terms, tenantId, termId) {
        return Err(Error(NotFound, "Term not found"));
      }
      CompleteTermKeepsCalendar(years, terms, termId);
      terms := terms[termId := terms[termId].(isActive := false, isCompleted := true)];
      r := Ok("Term marked as completed");
    }
  }
}
