/** The field constraints of the school registration request: non-empty
    strings, enum membership, the digital-address pattern
    `^[A-Z]{2}-\d{3}-\d{4}$` and a minimum password length. */
module RegisterValidation {
  import opened Common
  import opened Text
  import opened Schemas

  /** The request body as it arrives: enum fields still strings. */
  datatype RawRegistration = RawRegistration(
    schoolName: string,
    schoolType: string,
    curricula: seq<string>,
    gesCode: Option<string>,
    digitalAddress: string,
    region: string,
    city: string,
    adminFirstName: string,
    adminLastName: string,
    adminEmail: string,
    adminPhone: string,
    password: string)

  /** The request body after validation, as the registration service reads it. */
  datatype RegisterSchoolDto = RegisterSchoolDto(
    schoolName: string,
    schoolType: SchoolType,
    curricula: seq<CurriculumType>,
    gesCode: Option<string>,
    digitalAddress: string,
    region: string,
    city: string,
    adminFirstName: string,
    adminLastName: string,
    adminEmail: string,
    adminPhone: string,
    password: string)

  const MinPasswordLength := 8

  // ---------------------------------------------------------------------------
  // The digital-address pattern
  // ---------------------------------------------------------------------------

  /** One atom of an anchored regular expression without repetition. */
  datatype CharClass = UpperLetter | DecimalDigit | Literal(c: char)

  predicate InClass(c: char, k: CharClass)
  {
    match k
    case UpperLetter => IsUpper(c)
    case DecimalDigit => IsDigit(c)
    case Literal(l) => c == l
  }

  /** `^[A-Z]{2}-\d{3}-\d{4}$` with its counted repetitions written out. */
  const DigitalAddressPattern: seq<CharClass> :=
    [UpperLetter, UpperLetter, Literal('-'),
     DecimalDigit, DecimalDigit, DecimalDigit, Literal('-'),
     DecimalDigit, DecimalDigit, DecimalDigit, DecimalDigit]

  /** Anchored match: the whole of `s`, atom by atom. */
  predicate MatchesAnchored(s: string, p: seq<CharClass>)
  {
    if p == [] then s == []
    else s != [] && InClass(s[0], p[0]) && MatchesAnchored(s[1..], p[1..])
  }

  lemma {:induction false} MatchesAnchoredIff(s: string, p: seq<CharClass>)
    ensures MatchesAnchored(s, p) <==> |s| == |p| && forall i :: 0 <= i < |s| ==> InClass(s[i], p[i])
  {
    if p != [] && s != [] {
      MatchesAnchoredIff(s[1..], p[1..]);
      if |s| == |p| && forall i :: 0 <= i < |s| ==> InClass(s[i], p[i]) {
        assert forall i :: 0 <= i < |s| - 1 ==> InClass(s[1..][i], p[1..][i]) by {
          forall i | 0 <= i < |s| - 1 ensures InClass(s[1..][i], p[1..][i]) {
            assert InClass(s[i + 1], p[i + 1]);
          }
        }
      }
      if MatchesAnchored(s, p) {
        forall i | 0 <= i < |s| ensures InClass(s[i], p[i]) {
          if i > 0 { assert s[i] == s[1..][i - 1] && p[i] == p[1..][i - 1]; }
        }
      }
    }
  }

  predicate ValidDigitalAddress(s: string)
  {
    MatchesAnchored(s, DigitalAddressPattern)
  }

  /** The pattern accepts exactly: two upper-case letters, '-', three digits,
      '-', four digits. */
  lemma DigitalAddressShape(s: string)
    ensures ValidDigitalAddress(s) <==>
      |s| == 11 && IsUpper(s[0]) && IsUpper(s[1]) && s[2] == '-'
      && IsDigit(s[3]) && IsDigit(s[4]) && IsDigit(s[5]) && s[6] == '-'
      && IsDigit(s[7]) && IsDigit(s[8]) && IsDigit(s[9]) && IsDigit(s[10])
  {
    MatchesAnchoredIff(s, DigitalAddressPattern);
  }

  // ---------------------------------------------------------------------------
  // Whole-request validation
  // ---------------------------------------------------------------------------

  /** `@IsNotEmpty({ each: true }) @IsEnum(CurriculumType, { each: true })`:
      every entry is a curriculum name; the empty list passes. */
  function ParseCurricula(names: seq<string>): (r: Option<seq<CurriculumType>>)
    ensures r.Some? <==> forall i :: 0 <= i < |names| ==> ParseCurriculum(names[i]).Some?
    ensures r.Some? ==> |r.value| == |names|
    ensures r.Some? ==> forall i :: 0 <= i < |names| ==> CurriculumName(r.value[i]) == names[i]
  {
    if names == [] then Some([])
    else
      match (ParseCurriculum(names[0]), ParseCurricula(names[1..]))
      case (Some(c), Some(cs)) =>
        assert forall i :: 1 <= i < |names| ==> names[i] == names[1..][i - 1];
        Some([c] + cs)
      case (Some(_), None) =>
        assert exists i :: 0 <= i < |names[1..]| && ParseCurriculum(names[1..][i]).None?;
        None
      case (None, _) => None
  }

  predicate NotEmpty(s: string) { s != "" }

  /** A text-presentation or emoji-presentation selector (U+FE0E, U+FE0F). */
  predicate IsPresentationSelector(c: char)
  {
    c == '\U{FE0E}' || c == '\U{FE0F}'
  }

  /** The length `MinLength` measures: every character but the presentation
      selectors. A character here is a whole code point, so a surrogate pair
      already counts once. */
  function MeasuredLength(s: string): (n: nat)
    ensures n <= |s|
    ensures n == |s| <==> forall i :: 0 <= i < |s| ==> !IsPresentationSelector(s[i])
  {
    if s == [] then 0
    else
      assert forall i :: 1 <= i < |s| ==> s[i] == s[1..][i - 1];
      (if IsPresentationSelector(s[0]) then 0 else 1) + MeasuredLength(s[1..])
  }

  /** The measure adds up over a concatenation, and one character counts
      one unless it is a selector: each selector anywhere in the password
      lowers the measure by exactly one. */
  lemma {:induction false} MeasuredLengthAppend(a: string, b: string)
    ensures MeasuredLength(a + b) == MeasuredLength(a) + MeasuredLength(b)
    ensures |a| == 1 ==> MeasuredLength(a) == if IsPresentationSelector(a[0]) then 0 else 1
    decreases |a|
  {
    if a != [] {
      assert (a + b)[1..] == a[1..] + b;
      MeasuredLengthAppend(a[1..], b);
    } else {
      assert a + b == b;
    }
  }

  /** The class-validator decorators of the registration request. The e-mail
      and Ghana phone-number formats are library rules and stand here only as
      non-emptiness. The error names the first failing field. */
  function Validate(raw: RawRegistration): (r: Result<RegisterSchoolDto>)
    ensures r.Ok? <==>
      && NotEmpty(raw.schoolName)
      && ParseSchoolType(raw.schoolType).Some?
      && (forall i :: 0 <= i < |raw.curricula| ==> ParseCurriculum(raw.curricula[i]).Some?)
      && ValidDigitalAddress(raw.digitalAddress)
      && NotEmpty(raw.region) && NotEmpty(raw.city)
      && NotEmpty(raw.adminFirstName) && NotEmpty(raw.adminLastName)
      && NotEmpty(raw.adminEmail) && NotEmpty(raw.adminPhone)
      && MeasuredLength(raw.password) >= MinPasswordLength
    ensures r.Ok? ==>
      && r.value.schoolName == raw.schoolName
      && SchoolTypeName(r.value.schoolType) == raw.schoolType
      && |r.value.curricula| == |raw.curricula|
      && (forall i :: 0 <= i < |raw.curricula| ==> CurriculumName(r.value.curricula[i]) == raw.curricula[i])
      && r.value.gesCode == raw.gesCode
      && r.value.region == raw.region && r.value.city == raw.city
      && r.value.adminFirstName == raw.adminFirstName && r.value.adminLastName == raw.adminLastName
      && r.value.adminEmail == raw.adminEmail && r.value.adminPhone == raw.adminPhone
      && r.value.password == raw.password
      && r.value.digitalAddress == raw.digitalAddress
      && |r.value.digitalAddress| == 11
      && r.value.digitalAddress[2] == '-' && r.value.digitalAddress[6] == '-'
    ensures r.Err? ==> r.error.kind == BadRequest
  {
    DigitalAddressShape(raw.digitalAddress);
    if !NotEmpty(raw.schoolName) then Err(Error(BadRequest, "schoolName"))
    else if ParseSchoolType(raw.schoolType).None? then Err(Error(BadRequest, "type"))
    else if ParseCurricula(raw.curricula).None? then Err(Error(BadRequest, "curricula"))
    else if !ValidDigitalAddress(raw.digitalAddress) then Err(Error(BadRequest, "digitalAddress"))
    else if !NotEmpty(raw.region) then Err(Error(BadRequest, "region"))
    else if !NotEmpty(raw.city) then Err(Error(BadRequest, "city"))
    else if !NotEmpty(raw.adminFirstName) then Err(Error(BadRequest, "adminFirstName"))
    else if !NotEmpty(raw.adminLastName) then Err(Error(BadRequest, "adminLastName"))
    else if !NotEmpty(raw.adminEmail) then Err(Error(BadRequest, "adminEmail"))
    else if !NotEmpty(raw.adminPhone) then Err(Error(BadRequest, "adminPhone"))
    else if MeasuredLength(raw.password) < MinPasswordLength then Err(Error(BadRequest, "password"))
    else
      Ok(RegisterSchoolDto(
        raw.schoolName, ParseSchoolType(raw.schoolType).value,
        ParseCurricula(raw.curricula).value, raw.gesCode,
        raw.digitalAddress, raw.region, raw.city,
        raw.adminFirstName, raw.adminLastName, raw.adminEmail, raw.adminPhone,
        raw.password))
  }
}
