/** The school profile (`SchoolService`): reading it, and the partial update
    that keeps every field the request leaves out and recomputes the
    completion flag. */
module SchoolProfile {
  import opened Common
  import opened Schemas

  /** `UpdateSchoolProfileDto`: every field is optional. */
  datatype UpdateSchoolProfileDto = UpdateSchoolProfileDto(
    logoUrl: Option<string>,
    description: Option<string>,
    contactEmail: Option<string>,
    contactPhone: Option<string>,
    websiteUrl: Option<string>,
    socials: Option<map<string, string>>,
    operatingHours: Option<seq<OperatingHour>>)

  datatype ProfileUpdate = ProfileUpdate(message: string, profileCompleted: bool)

  const SchoolNotFound := "School not found"
  const ProfileUpdated := "Profile updated"

  /** JavaScript truthiness of an optional string field: present and not "". */
  predicate Filled(v: Option<string>)
  {
    v.Some? && v.value != ""
  }

  /** A profile is complete when it has a logo, a contact email and a
      contact phone. */
  predicate ProfileComplete(s: School)
  {
    Filled(s.logoUrl) && Filled(s.contactEmail) && Filled(s.contactPhone)
  }

  /** `provided ?? current`. */
  function Coalesce<T>(provided: Option<T>, current: Option<T>): Option<T>
  {
    if provided.Some? then provided else current
  }

  /** `{ ...current, ...provided }`: the keys of both, the provided value
      winning on a shared key. */
  function Spread(current: map<string, string>, provided: map<string, string>): map<string, string>
  {
    current + provided
  }

  /** The school as `updateProfile` stores it. */
  function ApplyProfile(s: School, dto: UpdateSchoolProfileDto): School
  {
    var merged := s.(logoUrl := Coalesce(dto.logoUrl, s.logoUrl),
                     description := Coalesce(dto.description, s.description),
                     contactEmail := Coalesce(dto.contactEmail, s.contactEmail),
                     contactPhone := Coalesce(dto.contactPhone, s.contactPhone),
                     websiteUrl := Coalesce(dto.websiteUrl, s.websiteUrl),
                     socials := if dto.socials.Some? then Spread(s.socials, dto.socials.value) else s.socials,
                     operatingHours := Coalesce(dto.operatingHours, s.operatingHours));
    merged.(profileCompleted := ProfileComplete(merged))
  }

  /** Each scalar field takes the request's value when one is given and
      keeps the stored one otherwise. */
  lemma ScalarFieldsMerged(s: School, dto: UpdateSchoolProfileDto)
    ensures var r := ApplyProfile(s, dto);
      && r.logoUrl == (if dto.logoUrl.Some? then dto.logoUrl else s.logoUrl)
      && r.description == (if dto.description.Some? then dto.description else s.description)
      && r.contactEmail == (if dto.contactEmail.Some? then dto.contactEmail else s.contactEmail)
      && r.contactPhone == (if dto.contactPhone.Some? then dto.contactPhone else s.contactPhone)
      && r.websiteUrl == (if dto.websiteUrl.Some? then dto.websiteUrl else s.websiteUrl)
  {
  }

  /** The social links are merged key by key: a key the request names takes
      the request's link, any other stored key keeps its link, and no key
      appears from nowhere. */
  lemma SocialsMerged(s: School, dto: UpdateSchoolProfileDto, key: string)
    ensures var r := ApplyProfile(s, dto);
      && (key in r.socials <==> key in s.socials || (dto.socials.Some? && key in dto.socials.value))
      && (dto.socials.Some? && key in dto.socials.value ==> r.socials[key] == dto.socials.value[key])
      && ((dto.socials.None? || key !in dto.socials.value) && key in s.socials ==> r.socials[key] == s.socials[key])
  {
  }

  /** The opening hours are replaced only by a list the request supplies. */
  lemma OperatingHoursReplaced(s: School, dto: UpdateSchoolProfileDto)
    ensures ApplyProfile(s, dto).operatingHours == if dto.operatingHours.Some? then dto.operatingHours else s.operatingHours
  {
  }

  /** The stored flag is the completion of the merged profile. */
  lemma CompletionRecomputed(s: School, dto: UpdateSchoolProfileDto)
    ensures var r := ApplyProfile(s, dto);
      r.profileCompleted <==> Filled(r.logoUrl) && Filled(r.contactEmail) && Filled(r.contactPhone)
  {
  }

  /** Everything outside the profile is left as it was. */
  lemma OtherFieldsUnchanged(s: School, dto: UpdateSchoolProfileDto)
    ensures var r := ApplyProfile(s, dto);
      && r.schoolName == s.schoolName && r.schoolType == s.schoolType && r.curricula == s.curricula
      && r.adminEmail == s.adminEmail && r.gesCode == s.gesCode && r.digitalAddress == s.digitalAddress
      && r.region == s.region && r.city == s.city && r.isVerified == s.isVerified
  {
  }

  /** Sending the same update twice stores the same school as sending it once. */
  lemma ApplyProfileIdempotent(s: School, dto: UpdateSchoolProfileDto)
    ensures ApplyProfile(ApplyProfile(s, dto), dto) == ApplyProfile(s, dto)
  {
    var once := ApplyProfile(s, dto);
    if dto.socials.Some? {
      assert Spread(once.socials, dto.socials.value) == once.socials;
    }
  }

  /** A request carrying a logo, a contact email and a contact phone, all
      non-empty, completes any profile. */
  lemma FullContactCompletes(s: School, dto: UpdateSchoolProfileDto)
    requires Filled(dto.logoUrl) && Filled(dto.contactEmail) && Filled(dto.contactPhone)
    ensures ApplyProfile(s, dto).profileCompleted
  {
  }

  /** A provided empty phone number is not "missing": it overwrites the stored
      number and the profile is no longer complete. */
  lemma EmptyPhoneUncompletes(s: School, dto: UpdateSchoolProfileDto)
    requires dto.contactPhone == Some("")
    ensures ApplyProfile(s, dto).contactPhone == Some("")
    ensures !ApplyProfile(s, dto).profileCompleted
  {
  }

  /** Every stored completion flag agrees with the stored fields. */
  predicate FlagsAccurate(schools: map<Id, School>)
  {
    forall id :: id in schools ==> (schools[id].profileCompleted <==> ProfileComplete(schools[id]))
  }

  /** A freshly registered school carries an accurate (false) flag. */
  lemma NewSchoolFlagAccurate(schools: map<Id, School>, id: Id, s: School)
    requires FlagsAccurate(schools)
    requires s.logoUrl.None? && s.contactEmail.None? && s.contactPhone.None? && !s.profileCompleted
    ensures FlagsAccurate(schools[id := s])
  {
  }

  /** An update leaves every stored flag accurate. */
  lemma ApplyProfileKeepsFlags(schools: map<Id, School>, id: Id, dto: UpdateSchoolProfileDto)
    requires FlagsAccurate(schools) && id in schools
    ensures FlagsAccurate(schools[id := ApplyProfile(schools[id], dto)])
  {
  }

  /** The in-memory edits of `updateProfile`: field by field, then the flag.
      The service assigns the document's fields one after the other; this
      method keeps that step-by-step form, and `ApplyProfile` is its
      specification, the value the lemmas above are proved about. */
  method MergeProfile(current: School, dto: UpdateSchoolProfileDto) returns (school: School)
    ensures school == ApplyProfile(current, dto)
  {
    school := current;
    var logoUrl := if dto.logoUrl.Some? then dto.logoUrl else school.logoUrl;
    var description := if dto.description.Some? then dto.description else school.description;
    var contactEmail := if dto.contactEmail.Some? then dto.contactEmail else school.contactEmail;
    var contactPhone := if dto.contactPhone.Some? then dto.contactPhone else school.contactPhone;
    var websiteUrl := if dto.websiteUrl.Some? then dto.websiteUrl else school.websiteUrl;
    var socials := school.socials;
    if dto.socials.Some? {
      socials := socials + dto.socials.value;
    }
    var operatingHours := school.operatingHours;
    if dto.operatingHours.Some? {
      operatingHours := dto.operatingHours;
    }
    school := school.(logoUrl := logoUrl, description := description, contactEmail := contactEmail,
                      contactPhone := contactPhone, websiteUrl := websiteUrl, socials := socials,
                      operatingHours := operatingHours);
    var profileCompleted := ProfileComplete(school);
    school := school.(profileCompleted := profileCompleted);
  }

  class SchoolService {
    var schools: map<Id, School>

    ghost predicate Valid()
      reads this
    {
      FlagsAccurate(schools)
    }

    constructor (schools: map<Id, School>)
      requires FlagsAccurate(schools)
      ensures Valid() && this.schools == schools
    {
      this.schools := schools;
    }

    /** `getProfile`: the tenant's school, or NotFound. */
    method GetProfile(tenantId: Id) returns (r: Result<School>)
      ensures r.Ok? <==> tenantId in schools
      ensures r.Ok? ==> r.value == schools[tenantId]
      ensures r.Err? ==> r.error == Error(NotFound, SchoolNotFound)
    {
      if tenantId !in schools {
        return Err(Error(NotFound, SchoolNotFound));
      }
      r := Ok(schools[tenantId]);
    }

    /** `updateProfile`: the merge, then one save. */
    method UpdateProfile(tenantId: Id, dto: UpdateSchoolProfileDto) returns (r: Result<ProfileUpdate>)
      requires Valid()
      modifies this
      ensures Valid()
      ensures tenantId !in old(schools) ==> r == Err(Error(NotFound, SchoolNotFound)) && schools == old(schools)
      ensures tenantId in old(schools) ==>
        && schools == old(schools)[tenantId := ApplyProfile(old(schools)[tenantId], dto)]
        && r == Ok(ProfileUpdate(ProfileUpdated, schools[tenantId].profileCompleted))
    {
      if tenantId !in schools {
        return Err(Error(NotFound, SchoolNotFound));
      }
      ApplyProfileKeepsFlags(schools, tenantId, dto);
      var school := MergeProfile(schools[tenantId], dto);
      schools := schools[tenantId := school];
      r := Ok(ProfileUpdate(ProfileUpdated, school.profileCompleted));
    }
  }
}
