/**
 * PatientEncounterController: create and update stamp the path ids onto the posted bundle;
 * the patient feed and the single-encounter fetch apply the access decision; a save
 * response becomes the request's result or its error.
 */
module PatientEncounterController {
  import opened Domain
  import opened AccessFilter
  import opened Paging
  import opened SearchResponse
  import opened FeedHandlers
  import opened ValidationResponse
  import Service = PatientEncounterService
  import EncounterController

  /** getErrorResult of a failed response: a precondition failure or an unprocessable entity. */
  function ErrorResult(response: Service.EncounterResponse): HttpError
  {
    if response.failure == Some(Service.Precondition) then PreconditionFailed else UnprocessableEntity
  }

  /** encounterSaveSuccessCallback: the response is the result exactly when it is successful. */
  function EncounterSaveCallback(response: Service.EncounterResponse): (outcome: Outcome<Service.EncounterResponse>)
    ensures outcome.Ok? <==> Service.IsSuccessful(response)
    ensures outcome.Ok? ==> outcome.value == response
    ensures outcome.Err? ==> outcome.error in {PreconditionFailed, UnprocessableEntity}
  {
    if Service.IsSuccessful(response) then Ok(response) else Err(ErrorResult(response))
  }

  /**
   * create: the path health id is stamped onto the bundle, which then goes through the create
   * flow. The result is the success response; a validation failure is an unprocessable
   * entity, an unknown patient a failed precondition.
   */
  method Create(healthId: string, bundle: EncounterBundle, user: UserInfo, validation: EncounterValidationResponse,
                registry: string -> Option<Service.Patient>, saveSucceeds: bool, newId: string, now: Date,
                getConfidentiality: string -> Confidentiality)
    returns (outcome: Outcome<Service.EncounterResponse>)
    requires validation.IsSuccessful() ==> validation.feed.Some?
    modifies bundle
    ensures bundle.healthId == Some(healthId)
    ensures !validation.IsSuccessful() ==> outcome == Err(UnprocessableEntity)
    ensures validation.IsSuccessful() && registry(healthId).None? ==> outcome == Err(PreconditionFailed)
    ensures validation.IsSuccessful() && registry(healthId).Some? ==>
              && outcome.Ok? && (outcome.value.encounterId.Some? <==> saveSucceeds)
              && bundle.encounterId == Some(newId)
              && bundle.createdBy == Some(Service.RequesterOf(user))
  {
    bundle.healthId := Some(healthId);
    var response, registryConsulted, saved := Service.EnsureCreated(bundle, user, validation, registry, saveSucceeds,
                                                                     newId, now, getConfidentiality);
    outcome := EncounterSaveCallback(response);
  }

  /**
   * update: the path health id and encounter id are stamped onto the bundle before it is
   * handed on; `updated` is what the update flow answers.
   */
  method Update(healthId: string, encounterId: string, bundle: EncounterBundle, updated: Service.EncounterResponse)
    returns (outcome: Outcome<Service.EncounterResponse>)
    modifies bundle
    ensures bundle.healthId == Some(healthId) && bundle.encounterId == Some(encounterId)
    ensures bundle.content == old(bundle.content)
    ensures bundle.patientConfidentiality == old(bundle.patientConfidentiality)
    ensures bundle.encounterConfidentiality == old(bundle.encounterConfidentiality)
    ensures bundle.receivedDate == old(bundle.receivedDate) && bundle.updatedDate == old(bundle.updatedDate)
    ensures bundle.createdBy == old(bundle.createdBy) && bundle.updatedBy == old(bundle.updatedBy)
    ensures outcome == EncounterSaveCallback(updated)
  {
    bundle.healthId := Some(healthId);
    bundle.encounterId := Some(encounterId);
    outcome := EncounterSaveCallback(updated);
  }

  /**
   * findEncounterFeedForPatient: Forbidden for a denied caller, before the feed is asked;
   * otherwise up to 200 events, refused as a whole for a restricted caller when any patient
   * is confidential, else filtered by tier.
   */
  method FindEncounterFeedForPatient(healthId: string, updatedSince: Option<string>, user: UserInfo,
                                     parseDate: string -> Date,
                                     feed: (string, Option<Date>, nat) -> seq<EncounterEvent>)
    returns (outcome: Outcome<EncounterSearchResponse<EncounterEvent>>, ghost requested: Option<nat>)
    ensures AccessForPatient(healthId, user) == AccessDenied ==> outcome == Err(Forbidden) && requested == None
    ensures AccessForPatient(healthId, user) != AccessDenied ==>
              var date := RequestedDate(updatedSince, parseDate);
              var events := feed(healthId, date, PatientFeedLimit);
              var decision := PatientFeedOutcome(AccessForPatient(healthId, user), events, EventEncounter);
              && requested == Some(200)
              && (AccessForPatient(healthId, user) == AccessRestricted &&
                  (exists i :: 0 <= i < |events| && IsConfidential(events[i].encounter.patientConfidentiality)) ==>
                    outcome == Err(Forbidden))
              && (decision.Ok? ==>
                    && outcome.Ok? && fresh(outcome.value) && outcome.value.Valid()
                    && outcome.value.entries == decision.value
                    && outcome.value.requestUrl == FeedLink(date, None)
                    && outcome.value.nextUrl == None && outcome.value.prevUrl == None)
  {
    outcome, requested := PatientFeed(healthId, updatedSince, user, parseDate, feed, EventEncounter);
  }

  function EventEncounter(e: EncounterEvent): Encounter
  {
    e.encounter
  }

  /**
   * findEncountersForPatientByEncounterId: the stored encounter if it belongs to the patient;
   * Forbidden when it is confidential and the caller is neither a system admin nor the
   * patient (a denied caller included); not found otherwise.
   */
  function FindEncountersForPatientByEncounterId(healthId: string, user: UserInfo, stored: Option<Encounter>)
    : (outcome: Outcome<Encounter>)
    ensures outcome == Err(ResourceNotFound) <==> stored.None? || stored.value.healthId != healthId
    ensures outcome == Err(Forbidden) <==>
              stored.Some? && stored.value.healthId == healthId && IsConfidentialEncounter(stored.value) &&
              !IsSystemAdmin(user) && !IsPatientItself(user, healthId)
    ensures outcome.Ok? ==> stored == Some(outcome.value) && outcome.value.healthId == healthId
    ensures stored.Some? && stored.value.healthId == healthId &&
            !(IsConfidentialEncounter(stored.value) && !IsSystemAdmin(user) && !IsPatientItself(user, healthId))
            ==> outcome == Ok(stored.value)
  {
    SingleEncounterOutcome(AccessForPatient(healthId, user), Service.FindEncounter(healthId, stored))
  }

  /** Both controllers turn a save response into the same result. */
  lemma CallbackAgreesWithEncounterController(response: Service.EncounterResponse)
    ensures EncounterSaveCallback(response) == EncounterController.CreateOutcome(response)
  {
  }
}
