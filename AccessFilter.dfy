/**
 * The access decision and confidentiality filtering the controllers consume. The decision
 * rule is the one fixed by the access-filter test suite: a tri-state answer where AccessDenied
 * stands for the source's null, AccessRestricted for true and AccessUnrestricted for false.
 */
module AccessFilter {
  import opened Domain

  /** The user groups the identity server reports; only the system-admin group matters here. */
  datatype Group = FacilityAdminGroup | ShrUserGroup | SystemAdminGroup | OtherGroup(name: string)

  datatype ProfileType = FacilityProfile | ProviderProfile | PatientProfile

  /** A facility or provider profile carries its registered catchments; a patient profile its health id. */
  datatype UserProfile = UserProfile(kind: ProfileType, id: string, catchments: seq<string>)

  datatype UserInfo = UserInfo(
    id: string,
    groups: seq<Group>,
    profiles: seq<UserProfile>,
    facilityId: Option<string>,
    providerId: Option<string>)

  datatype Access = AccessDenied | AccessRestricted | AccessUnrestricted

  predicate IsSystemAdmin(user: UserInfo)
  {
    SystemAdminGroup in user.groups
  }

  /** The user holds a patient profile for this health id. */
  predicate IsPatientItself(user: UserInfo, healthId: string)
  {
    exists i :: 0 <= i < |user.profiles| && user.profiles[i].kind == PatientProfile && user.profiles[i].id == healthId
  }

  /** The user holds a facility or provider profile. */
  predicate HasCareProfile(user: UserInfo)
  {
    exists i :: 0 <= i < |user.profiles| && user.profiles[i].kind != PatientProfile
  }

  /** The requested catchment starts with a catchment some facility or provider profile is registered for. */
  predicate CoversCatchment(user: UserInfo, catchment: string)
  {
    exists i, j :: 0 <= i < |user.profiles| && user.profiles[i].kind != PatientProfile &&
                   0 <= j < |user.profiles[i].catchments| && user.profiles[i].catchments[j] <= catchment
  }

  /** isAccessRestrictedToEncounterFetchForPatient. */
  function AccessForPatient(healthId: string, user: UserInfo): Access
  {
    if IsSystemAdmin(user) || IsPatientItself(user, healthId) then AccessUnrestricted
    else if HasCareProfile(user) then AccessRestricted
    else AccessDenied
  }

  /** isAccessRestrictedToEncounterFetchForCatchment. */
  function AccessForCatchment(catchment: string, user: UserInfo): Access
  {
    if !CoversCatchment(user, catchment) then AccessDenied
    else if IsSystemAdmin(user) then AccessUnrestricted
    else AccessRestricted
  }

  /** An identity with only patient profiles never reaches a catchment feed. */
  lemma PatientOnlyNeverReadsCatchments(user: UserInfo, catchment: string)
    requires forall i :: 0 <= i < |user.profiles| ==> user.profiles[i].kind == PatientProfile
    ensures AccessForCatchment(catchment, user) == AccessDenied
  {
  }

  /**
   * Prefix matching runs one way: a catchment shorter than every registered one is denied,
   * and every extension of a registered catchment is granted.
   */
  lemma CatchmentScopeIsPrefix(user: UserInfo, catchment: string, suffix: string)
    ensures (forall i, j :: 0 <= i < |user.profiles| && 0 <= j < |user.profiles[i].catchments| ==>
               |catchment| < |user.profiles[i].catchments[j]|)
            ==> AccessForCatchment(catchment, user) == AccessDenied
    ensures AccessForCatchment(catchment, user) != AccessDenied ==> AccessForCatchment(catchment + suffix, user) != AccessDenied
  {
    if CoversCatchment(user, catchment) {
      var i, j :| 0 <= i < |user.profiles| && user.profiles[i].kind != PatientProfile &&
                  0 <= j < |user.profiles[i].catchments| && user.profiles[i].catchments[j] <= catchment;
      var c := user.profiles[i].catchments[j];
      assert c <= catchment + suffix by {
        assert (catchment + suffix)[..|c|] == catchment[..|c|];
      }
    }
  }

  /** The identities of the access-filter test and the ids and catchments they are registered with. */
  const TestHealthId := "12345567890"
  const TestHealthIdForProvider := "22345567892"
  const TestFacilityCatchment := "302618"
  const TestProviderCatchment := "3026"

  const TestFacility := UserInfo("1", [FacilityAdminGroup, ShrUserGroup],
                                 [UserProfile(FacilityProfile, "10000069", [TestFacilityCatchment])],
                                 Some("10000069"), None)
  const TestDatasenseFacility := UserInfo("2", [FacilityAdminGroup, SystemAdminGroup],
                                          [UserProfile(FacilityProfile, "10022222", [TestFacilityCatchment])],
                                          Some("10022222"), None)
  const TestFacilityAndProvider := UserInfo("3", [OtherGroup("Facility Admin"), ShrUserGroup],
                                            [UserProfile(FacilityProfile, "10000069", [TestFacilityCatchment]),
                                             UserProfile(ProviderProfile, "343234", [TestProviderCatchment])],
                                            Some("10000069"), Some("343234"))
  const TestPatient := UserInfo("4", [ShrUserGroup], [UserProfile(PatientProfile, TestHealthId, [])], None, None)
  const TestProviderAndPatient := UserInfo("5", [ShrUserGroup],
                                           [UserProfile(ProviderProfile, "343234", [TestProviderCatchment]),
                                            UserProfile(PatientProfile, TestHealthIdForProvider, [])],
                                           None, Some("343234"))
  const TestProvider := UserInfo("6", [ShrUserGroup],
                                 [UserProfile(ProviderProfile, "343234", [TestProviderCatchment])],
                                 None, Some("343234"))

  /**
   * The patient-feed cases of the access-filter test: care profiles read other patients'
   * feeds restricted, the system admin and the patient itself unrestricted, and a patient
   * is denied every other patient's feed.
   */
  lemma PatientTestCases()
    ensures AccessForPatient("some health id", TestFacility) == AccessRestricted
    ensures AccessForPatient("some health id", TestDatasenseFacility) == AccessUnrestricted
    ensures AccessForPatient("some health id", TestFacilityAndProvider) == AccessRestricted
    ensures AccessForPatient(TestHealthId, TestPatient) == AccessUnrestricted
    ensures AccessForPatient("some hid", TestPatient) == AccessDenied
    ensures AccessForPatient(TestHealthIdForProvider, TestProviderAndPatient) == AccessUnrestricted
    ensures AccessForPatient(TestHealthId, TestProviderAndPatient) == AccessRestricted
    ensures AccessForPatient(TestHealthId, TestProvider) == AccessRestricted
  {
    assert TestFacility.profiles[0].kind != PatientProfile;
    assert TestFacilityAndProvider.profiles[0].kind != PatientProfile;
    assert TestPatient.profiles[0].kind == PatientProfile && TestPatient.profiles[0].id == TestHealthId;
    assert "some hid" != TestHealthId;
    assert TestProviderAndPatient.profiles[1].kind == PatientProfile;
    assert TestProviderAndPatient.profiles[1].id == TestHealthIdForProvider;
    assert TestProviderAndPatient.profiles[0].kind != PatientProfile;
    assert TestProvider.profiles[0].kind != PatientProfile;
  }

  /**
   * The catchment cases of the access-filter test. A registered catchment covers its
   * extensions and not its prefixes, and only facility and provider profiles count.
   */
  lemma CatchmentTestCases()
    ensures AccessForCatchment(TestFacilityCatchment, TestFacility) == AccessRestricted
    ensures AccessForCatchment(TestProviderCatchment, TestFacility) == AccessDenied
    ensures AccessForCatchment(TestFacilityCatchment, TestDatasenseFacility) == AccessUnrestricted
    ensures AccessForCatchment(TestProviderCatchment, TestDatasenseFacility) == AccessDenied
    ensures AccessForCatchment(TestFacilityCatchment, TestFacilityAndProvider) == AccessRestricted
    ensures AccessForCatchment(TestProviderCatchment, TestFacilityAndProvider) == AccessRestricted
    ensures AccessForCatchment("1029", TestFacilityAndProvider) == AccessDenied
    ensures AccessForCatchment("1029", TestPatient) == AccessDenied
    ensures AccessForCatchment(TestProviderCatchment, TestProviderAndPatient) == AccessRestricted
    ensures AccessForCatchment("1029", TestProviderAndPatient) == AccessDenied
    ensures AccessForCatchment(TestProviderCatchment, TestProvider) == AccessRestricted
    ensures AccessForCatchment("1029", TestProvider) == AccessDenied
  {
    assert TestFacility.profiles[0].catchments[0] <= TestFacilityCatchment;
    assert TestDatasenseFacility.profiles[0].catchments[0] <= TestFacilityCatchment;
    assert TestFacilityAndProvider.profiles[1].catchments[0] <= TestFacilityCatchment;
    assert TestFacilityAndProvider.profiles[1].catchments[0] <= TestProviderCatchment;
    assert TestProviderAndPatient.profiles[0].catchments[0] <= TestProviderCatchment;
    assert TestProvider.profiles[0].catchments[0] <= TestProviderCatchment;
    assert "1029"[..4][0] != TestProviderCatchment[0];
  }

  /** An event a Restricted caller may see: neither the patient nor the encounter is confidential. */
  predicate VisibleWhenRestricted(e: Encounter)
  {
    !IsConfidential(e.patientConfidentiality) && !IsConfidential(e.encounterConfidentiality)
  }

  /**
   * filterEncounterEvents / filterEncounters: everything for an unrestricted caller, only the
   * non-confidential entries, in their order, for a restricted one.
   */
  function FilterEncounters<T(!new)>(restricted: bool, entries: seq<T>, encounterOf: T -> Encounter): (kept: seq<T>)
    ensures !restricted ==> kept == entries
    ensures |kept| <= |entries|
  {
    if !restricted || |entries| == 0 then entries
    else
      var rest := FilterEncounters(restricted, entries[1..], encounterOf);
      if VisibleWhenRestricted(encounterOf(entries[0])) then [entries[0]] + rest else rest
  }

  /**
   * The filter adds nothing, and a restricted caller keeps exactly the entries whose
   * patient and encounter are both non-confidential.
   */
  lemma {:induction false} FilterEncountersKeepsVisible<T(!new)>(restricted: bool, entries: seq<T>,
                                                                encounterOf: T -> Encounter)
    ensures var kept := FilterEncounters(restricted, entries, encounterOf);
            && multiset(kept) <= multiset(entries)
            && (restricted ==> forall x :: x in kept <==> x in entries && VisibleWhenRestricted(encounterOf(x)))
  {
    if restricted && |entries| > 0 {
      FilterEncountersKeepsVisible(restricted, entries[1..], encounterOf);
      assert entries == [entries[0]] + entries[1..];
    }
  }

  /** A restricted caller is left with nothing when no entry is visible to it. */
  lemma {:induction false} NothingVisibleNothingKept<T(!new)>(entries: seq<T>, encounterOf: T -> Encounter)
    requires forall i :: 0 <= i < |entries| ==> !VisibleWhenRestricted(encounterOf(entries[i]))
    ensures FilterEncounters(true, entries, encounterOf) == []
  {
    if |entries| > 0 {
      NothingVisibleNothingKept(entries[1..], encounterOf);
    }
  }

  /** A restricted caller keeps every entry, in order, when all of them are visible to it. */
  lemma {:induction false} AllVisibleAllKept<T(!new)>(entries: seq<T>, encounterOf: T -> Encounter)
    requires forall i :: 0 <= i < |entries| ==> VisibleWhenRestricted(encounterOf(entries[i]))
    ensures FilterEncounters(true, entries, encounterOf) == entries
  {
    if |entries| > 0 {
      AllVisibleAllKept(entries[1..], encounterOf);
      assert entries == [entries[0]] + entries[1..];
    }
  }

  /** One entry is kept exactly when the caller is unrestricted or the entry is visible. */
  lemma FilterEncountersSingle<T(!new)>(restricted: bool, x: T, encounterOf: T -> Encounter)
    ensures FilterEncounters(restricted, [x], encounterOf)
            == if !restricted || VisibleWhenRestricted(encounterOf(x)) then [x] else []
  {
    assert [x][1..] == [];
  }

  /** The first entry is filtered on its own, ahead of the rest. */
  lemma FilterEncountersCons<T(!new)>(restricted: bool, x: T, s: seq<T>, encounterOf: T -> Encounter)
    ensures FilterEncounters(restricted, [x] + s, encounterOf)
            == FilterEncounters(restricted, [x], encounterOf) + FilterEncounters(restricted, s, encounterOf)
  {
    assert ([x] + s)[0] == x;
    assert ([x] + s)[1..] == s;
    assert [x][1..] == [];
  }

  /**
   * The filter works entry by entry: filtering a concatenation concatenates the filtered
   * parts, so the kept entries stay in their order, each as often as it occurs.
   */
  lemma {:induction false} FilterEncountersAppend<T(!new)>(restricted: bool, a: seq<T>, b: seq<T>,
                                                          encounterOf: T -> Encounter)
    ensures FilterEncounters(restricted, a + b, encounterOf)
            == FilterEncounters(restricted, a, encounterOf) + FilterEncounters(restricted, b, encounterOf)
  {
    if |a| == 0 {
      assert a + b == b;
    } else {
      var t := a[1..];
      assert a == [a[0]] + t;
      assert a + b == [a[0]] + (t + b);
      FilterEncountersCons(restricted, a[0], t + b, encounterOf);
      FilterEncountersCons(restricted, a[0], t, encounterOf);
      FilterEncountersAppend(restricted, t, b, encounterOf);
      var head := FilterEncounters(restricted, [a[0]], encounterOf);
      var kt := FilterEncounters(restricted, t, encounterOf);
      var kb := FilterEncounters(restricted, b, encounterOf);
      assert head + (kt + kb) == (head + kt) + kb;
    }
  }

  /** The encounters carried by a list of feed entries, in order. */
  function EncountersOf<T>(entries: seq<T>, encounterOf: T -> Encounter): (es: seq<Encounter>)
    ensures |es| == |entries|
    ensures forall i :: 0 <= i < |entries| ==> es[i] == encounterOf(entries[i])
  {
    seq(|entries|, i requires 0 <= i < |entries| => encounterOf(entries[i]))
  }

  /** isConfidentialPatient: some bundle's patient is stricter than Normal. */
  function IsConfidentialPatient(bundles: seq<Encounter>): (confidential: bool)
    ensures confidential <==> exists i :: 0 <= i < |bundles| && IsConfidential(bundles[i].patientConfidentiality)
  {
    if |bundles| == 0 then false
    else IsConfidential(bundles[0].patientConfidentiality) || IsConfidentialPatient(bundles[1..])
  }

  /** isConfidentialEncounter: the encounter itself is stricter than Normal. */
  predicate IsConfidentialEncounter(e: Encounter)
  {
    IsConfidential(e.encounterConfidentiality)
  }

  /** A restricted caller is shown no confidential patient and no confidential encounter. */
  lemma RestrictedFilterHidesConfidential<T(!new)>(entries: seq<T>, encounterOf: T -> Encounter)
    ensures var kept := FilterEncounters(true, entries, encounterOf);
            forall x :: x in kept ==> !IsConfidential(encounterOf(x).patientConfidentiality) &&
                                      !IsConfidentialEncounter(encounterOf(x))
  {
    FilterEncountersKeepsVisible(true, entries, encounterOf);
  }
}
