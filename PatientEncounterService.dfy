/**
 * PatientEncounterService: the create flow (a validation gate, then a patient-registry gate,
 * then the bundle's fields populated and the bundle saved), the encounter confidentiality
 * read off the first composition, and the lookup of one encounter of a patient.
 */
module PatientEncounterService {
  import opened Domain
  import opened AccessFilter
  import Fhir
  import opened ValidationResponse

  /** A patient as the registry returns it. */
  datatype Patient = Patient(healthId: string, confidentiality: Confidentiality)

  datatype TypeOfFailure = Validation | Precondition

  /** The answer to a create request: the new encounter's id, or a failure with its errors. */
  datatype EncounterResponse = EncounterResponse(encounterId: Option<string>, failure: Option<TypeOfFailure>,
                                                 errors: seq<Error>)

  predicate IsSuccessful(r: EncounterResponse)
  {
    r.failure.None?
  }

  const PatientNotAvailable := "Patient not available in patient registry"

  /** setValidationFailure: the validator's errors, as a validation failure. */
  function ValidationFailure(errors: seq<Error>): EncounterResponse
  {
    EncounterResponse(None, Some(Validation), errors)
  }

  /** preconditionFailure: one error, as a precondition failure. */
  function PreconditionFailure(field: string, errorType: string, reason: string): EncounterResponse
  {
    EncounterResponse(None, Some(Precondition), [Error(field, errorType, reason)])
  }

  /** The confidentiality an encounter is filed under: that of the first composition, if coded. */
  function FeedConfidentiality(feed: seq<Fhir.AtomEntry>, getConfidentiality: string -> Confidentiality): Confidentiality
  {
    if |feed| == 0 then Normal
    else if feed[0].resource.resourceType == Fhir.Composition then
      (if feed[0].resource.confidentiality.None? then Normal
       else getConfidentiality(feed[0].resource.confidentiality.value))
    else FeedConfidentiality(feed[1..], getConfidentiality)
  }

  /** getEncounterConfidentiality: scans for the first composition and stops there. */
  method GetEncounterConfidentiality(feed: seq<Fhir.AtomEntry>, getConfidentiality: string -> Confidentiality)
    returns (encounterConfidentiality: Confidentiality)
    ensures encounterConfidentiality == FeedConfidentiality(feed, getConfidentiality)
  {
    encounterConfidentiality := Normal;
    var i := 0;
    while i < |feed|
      invariant 0 <= i <= |feed|
      invariant encounterConfidentiality == Normal
      invariant FeedConfidentiality(feed[i..], getConfidentiality) == FeedConfidentiality(feed, getConfidentiality)
    {
      assert feed[i..][0] == feed[i] && feed[i..][1..] == feed[i + 1..];
      var entry := feed[i];
      if entry.resource.resourceType == Fhir.Composition {
        var confidentiality := entry.resource.confidentiality;
        if confidentiality.None? {
          break;
        }
        encounterConfidentiality := getConfidentiality(confidentiality.value);
        break;
      }
      i := i + 1;
    }
  }

  /** A feed without a composition is filed as Normal. */
  lemma {:induction false} NoCompositionMeansNormal(feed: seq<Fhir.AtomEntry>, getConfidentiality: string -> Confidentiality)
    requires forall i :: 0 <= i < |feed| ==> feed[i].resource.resourceType != Fhir.Composition
    ensures FeedConfidentiality(feed, getConfidentiality) == Normal
  {
    if |feed| > 0 {
      NoCompositionMeansNormal(feed[1..], getConfidentiality);
    }
  }

  /**
   * Only the first composition counts: whatever precedes it holds no composition and whatever
   * follows it is not read; without a confidentiality code it means Normal.
   */
  lemma {:induction false} FirstCompositionDecides(before: seq<Fhir.AtomEntry>, composition: Fhir.AtomEntry,
                                                   after: seq<Fhir.AtomEntry>, getConfidentiality: string -> Confidentiality)
    requires forall i :: 0 <= i < |before| ==> before[i].resource.resourceType != Fhir.Composition
    requires composition.resource.resourceType == Fhir.Composition
    ensures FeedConfidentiality(before + [composition] + after, getConfidentiality)
            == if composition.resource.confidentiality.None? then Normal
               else getConfidentiality(composition.resource.confidentiality.value)
  {
    var feed := before + [composition] + after;
    if |before| == 0 {
      assert feed[0] == composition;
    } else {
      assert feed[0] == before[0];
      assert feed[1..] == before[1..] + [composition] + after;
      FirstCompositionDecides(before[1..], composition, after, getConfidentiality);
    }
  }

  /** The requester recorded on a bundle: the caller's facility and provider. */
  function RequesterOf(user: UserInfo): Requester
  {
    Requester(user.facilityId, user.providerId)
  }

  /**
   * populateEncounterBundleFields: a fresh id, the patient's confidentiality, the feed's
   * confidentiality, one timestamp for received and updated, one requester for created and
   * updated. Content and health id are left alone.
   */
  method PopulateEncounterBundleFields(patient: Patient, bundle: EncounterBundle, feed: seq<Fhir.AtomEntry>,
                                       user: UserInfo, newId: string, now: Date,
                                       getConfidentiality: string -> Confidentiality)
    modifies bundle
    ensures bundle.encounterId == Some(newId)
    ensures bundle.patientConfidentiality == Some(patient.confidentiality)
    ensures bundle.encounterConfidentiality == Some(FeedConfidentiality(feed, getConfidentiality))
    ensures bundle.receivedDate == Some(now) && bundle.updatedDate == bundle.receivedDate
    ensures bundle.createdBy == Some(RequesterOf(user)) && bundle.updatedBy == bundle.createdBy
    ensures bundle.content == old(bundle.content) && bundle.healthId == old(bundle.healthId)
  {
    bundle.encounterId := Some(newId);
    bundle.patientConfidentiality := Some(patient.confidentiality);
    var encounterConfidentiality := GetEncounterConfidentiality(feed, getConfidentiality);
    bundle.encounterConfidentiality := Some(encounterConfidentiality);
    var currentTimestamp := now;
    bundle.receivedDate := Some(currentTimestamp);
    bundle.updatedDate := Some(currentTimestamp);
    var requester := RequesterOf(user);
    bundle.createdBy := Some(requester);
    bundle.updatedBy := Some(requester);
  }

  /**
   * ensureCreated: a bundle that fails validation is answered with the validator's errors and
   * the registry is not consulted; a patient unknown to the registry is a precondition failure
   * and nothing is saved; otherwise the bundle is populated and saved, and the answer carries
   * the new encounter id exactly when the save succeeded.
   */
  method EnsureCreated(bundle: EncounterBundle, user: UserInfo, validation: EncounterValidationResponse,
                       registry: string -> Option<Patient>, saveSucceeds: bool, newId: string, now: Date,
                       getConfidentiality: string -> Confidentiality)
    returns (response: EncounterResponse, ghost registryConsulted: bool, ghost saved: bool)
    requires bundle.healthId.Some?
    requires validation.IsSuccessful() ==> validation.feed.Some?
    modifies bundle
    ensures registryConsulted <==> validation.IsSuccessful()
    ensures !validation.IsSuccessful() ==>
              response == ValidationFailure(validation.errors) && !saved && unchanged(bundle)
    ensures validation.IsSuccessful() && registry(old(bundle.healthId).value).None? ==>
              response == PreconditionFailure("healthId", "invalid", PatientNotAvailable) && !saved && unchanged(bundle)
    ensures validation.IsSuccessful() && registry(old(bundle.healthId).value).Some? ==>
              var patient := registry(old(bundle.healthId).value).value;
              && saved && IsSuccessful(response) && response.errors == []
              && (response.encounterId.Some? <==> saveSucceeds)
              && (saveSucceeds ==> response.encounterId == Some(newId))
              && bundle.encounterId == Some(newId)
              && bundle.patientConfidentiality == Some(patient.confidentiality)
              && bundle.encounterConfidentiality == Some(FeedConfidentiality(validation.feed.value, getConfidentiality))
              && bundle.receivedDate == Some(now) && bundle.updatedDate == bundle.receivedDate
              && bundle.createdBy == Some(RequesterOf(user)) && bundle.updatedBy == bundle.createdBy
              && bundle.content == old(bundle.content) && bundle.healthId == old(bundle.healthId)
  {
    saved := false;
    if !validation.IsSuccessful() {
      return ValidationFailure(validation.errors), false, false;
    }
    registryConsulted := true;
    var patient := registry(bundle.healthId.value);
    response := EncounterResponse(None, None, []);
    if patient.None? {
      return PreconditionFailure("healthId", "invalid", PatientNotAvailable), true, false;
    }
    PopulateEncounterBundleFields(patient.value, bundle, validation.feed.value, user, newId, now, getConfidentiality);
    saved := true;
    if saveSucceeds {
      response := response.(encounterId := bundle.encounterId);
    }
  }

  /** findEncounter: the stored encounter, kept only when it belongs to the given patient. */
  function FindEncounter(healthId: string, stored: Option<Encounter>): (found: Option<Encounter>)
    ensures found.Some? <==> stored.Some? && stored.value.healthId == healthId
    ensures found.Some? ==> found == stored && found.value.healthId == healthId
  {
    if stored.Some? && stored.value.healthId == healthId then stored else None
  }
}
