/** The setup checklist on the dashboard (`DashboardService`): only the
    profile step is computed so far; the other steps are placeholders. */
module Dashboard {
  import opened Common
  import opened Schemas
  import opened SchoolProfile

  datatype SetupProgress = SetupProgress(
    profile: bool,
    academic: bool,
    staff: bool,
    students: bool,
    percentComplete: real)

  /** `flags.filter(Boolean).length`. */
  function CountTrue(flags: seq<bool>): (n: nat)
    ensures n <= |flags|
    ensures n == |flags| <==> forall i :: 0 <= i < |flags| ==> flags[i]
    ensures n == 0 <==> forall i :: 0 <= i < |flags| ==> !flags[i]
  {
    if flags == [] then 0
    else (if flags[0] then 1 else 0) + CountTrue(flags[1..])
  }

  /** `(completed / steps) * 100`, on exact reals. */
  function Percent(completed: nat, steps: nat): real
    requires steps > 0
  {
    (completed as real / steps as real) * 100.0
  }

  /** `getSetupProgress`: a missing school is simply not set up. */
  function GetSetupProgress(schools: map<Id, School>, tenantId: Id): (p: SetupProgress)
    ensures p.profile <==> tenantId in schools && ProfileComplete(schools[tenantId])
    ensures !p.academic && !p.staff && !p.students
    ensures p.percentComplete == if p.profile then 25.0 else 0.0
  {
    var profile := tenantId in schools && Filled(schools[tenantId].logoUrl)
                   && Filled(schools[tenantId].contactEmail) && Filled(schools[tenantId].contactPhone);
    var flags := [profile, false, false, false];
    assert CountTrue(flags) == if profile then 1 else 0;
    SetupProgress(profile, false, false, false, Percent(CountTrue(flags), |flags|))
  }

  /** With four steps the percentage is 25 per completed step, between 0 and 100. */
  lemma PercentOfFourSteps(flags: seq<bool>)
    requires |flags| == 4
    ensures Percent(CountTrue(flags), |flags|) == 25.0 * CountTrue(flags) as real
    ensures 0.0 <= Percent(CountTrue(flags), |flags|) <= 100.0
  {
  }

  /** When every stored flag is accurate, the dashboard's profile step
      agrees with the flag `updateProfile` stored. */
  lemma ProfileStepMatchesStoredFlag(schools: map<Id, School>, tenantId: Id)
    requires FlagsAccurate(schools) && tenantId in schools
    ensures GetSetupProgress(schools, tenantId).profile == schools[tenantId].profileCompleted
  {
  }

  /** After a profile update the dashboard reports what the update answered. */
  lemma ProgressAfterUpdate(schools: map<Id, School>, tenantId: Id, dto: UpdateSchoolProfileDto)
    requires tenantId in schools
    ensures var s := ApplyProfile(schools[tenantId], dto);
      GetSetupProgress(schools[tenantId := s], tenantId).profile == s.profileCompleted
  {
  }
}
