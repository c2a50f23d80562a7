/**
 * EncounterController, the older controller: the patient feed, the catchment feed and the
 * single-encounter fetch over stored encounters, and the routing of a create response. Its
 * catchment feed is keyed by encounter id, and a marker that is not among the fetched rows
 * restarts at the first page.
 */
module EncounterController {
  import opened Domain
  import opened AccessFilter
  import opened Paging
  import opened SearchResponse
  import opened FeedHandlers
  import Service = PatientEncounterService

  function EncounterKey(e: Encounter): string
  {
    e.encounterId
  }

  function ReceivedDate(e: Encounter): Date
  {
    e.receivedDate
  }

  function Itself(e: Encounter): Encounter
  {
    e
  }

  /**
   * create: a successful response is the result; otherwise a precondition failure becomes
   * PreconditionFailed and any other failure UnprocessableEntity.
   */
  function CreateOutcome(response: Service.EncounterResponse): (outcome: Outcome<Service.EncounterResponse>)
    ensures outcome.Ok? <==> Service.IsSuccessful(response)
    ensures outcome.Ok? ==> outcome.value == response
    ensures outcome == Err(PreconditionFailed) <==> response.failure == Some(Service.Precondition)
  {
    if Service.IsSuccessful(response) then Ok(response)
    else if response.failure == Some(Service.Precondition) then Err(PreconditionFailed)
    else Err(UnprocessableEntity)
  }

  /**
   * findEncountersForPatient (feed): Forbidden for a denied caller before storage is asked;
   * otherwise up to 200 encounters, refused as a whole for a restricted caller when any
   * patient is confidential, else filtered.
   */
  method FindEncountersForPatient(healthId: string, updatedSince: Option<string>, user: UserInfo,
                                  parseDate: string -> Date, storage: (string, Option<Date>, nat) -> seq<Encounter>)
    returns (outcome: Outcome<EncounterSearchResponse<Encounter>>, ghost requested: Option<nat>)
    ensures AccessForPatient(healthId, user) == AccessDenied ==> outcome == Err(Forbidden) && requested == None
    ensures AccessForPatient(healthId, user) != AccessDenied ==>
              var date := RequestedDate(updatedSince, parseDate);
              var fetched := storage(healthId, date, PatientFeedLimit);
              var decision := PatientFeedOutcome(AccessForPatient(healthId, user), fetched, Itself);
              && requested == Some(200)
              && (AccessForPatient(healthId, user) == AccessRestricted && IsConfidentialPatient(fetched) ==>
                    outcome == Err(Forbidden))
              && (decision.Ok? ==>
                    && outcome.Ok? && fresh(outcome.value) && outcome.value.Valid()
                    && outcome.value.entries == decision.value
                    && outcome.value.requestUrl == FeedLink(date, None)
                    && outcome.value.nextUrl == None && outcome.value.prevUrl == None)
  {
    outcome, requested := PatientFeed(healthId, updatedSince, user, parseDate, storage, Itself);
    if AccessForPatient(healthId, user) == AccessRestricted {
      var fetched := storage(healthId, RequestedDate(updatedSince, parseDate), PatientFeedLimit);
      assert EncountersOf(fetched, Itself) == fetched;
    }
  }

  /**
   * findEncountersForCatchment: as the catchment controller, over stored encounters keyed by
   * encounter id and linked by received date, restarting at the first page on a stale marker.
   */
  method FindEncountersForCatchment(catchment: string, updatedSince: Option<string>, lastMarker: Option<string>,
                                    user: UserInfo, now: Date, parseDate: string -> Date, fetchLimit: nat,
                                    storage: (string, Date, nat) -> seq<Encounter>)
    returns (outcome: Outcome<EncounterSearchResponse<Encounter>>, ghost requested: Option<nat>)
    requires ValidDate(now)
    requires forall s :: ValidDate(parseDate(s))
    ensures |catchment| < 4 ==> outcome == Err(BadRequest(CatchmentTooShort)) && requested == None
    ensures |catchment| >= 4 && AccessForCatchment(catchment, user) == AccessDenied ==>
              outcome == Err(Forbidden) && requested == None
    ensures |catchment| >= 4 && AccessForCatchment(catchment, user) != AccessDenied ==>
              var date := CatchmentRequestDate(updatedSince, now, parseDate);
              var page := CatchmentPage(catchment, date, lastMarker, fetchLimit, AccessForCatchment(catchment, user),
                                        storage, EncounterKey, Itself, FirstPage);
              && requested == Some(2 * fetchLimit)
              && outcome.Ok? && fresh(outcome.value) && outcome.value.Valid()
              && outcome.value.entries == page && |page| <= fetchLimit
              && outcome.value.requestUrl == RequestLink(Some(date), lastMarker)
              && outcome.value.prevUrl == None
              && outcome.value.nextUrl == NextLink(page, EncounterKey, ReceivedDate, date, now)
  {
    outcome, requested := CatchmentFeed(catchment, updatedSince, lastMarker, user, now, parseDate, fetchLimit,
                                        storage, EncounterKey, ReceivedDate, Itself, FirstPage);
    if |catchment| >= 4 && AccessForCatchment(catchment, user) != AccessDenied {
      var date := CatchmentRequestDate(updatedSince, now, parseDate);
      PageWithinLimit(storage(catchment, date, 2 * fetchLimit), EncounterKey, lastMarker, fetchLimit, FirstPage);
    }
  }

  /**
   * findEncountersForPatient (one encounter): not found, Forbidden when the encounter is
   * confidential and the caller is neither a system admin nor the patient, or the encounter.
   * The access decision is taken before the lookup, and a denied caller is not turned away
   * unless the encounter is confidential.
   */
  function FindEncounterForPatient(healthId: string, user: UserInfo, found: Option<Encounter>)
    : (outcome: Outcome<Encounter>)
    ensures found.None? ==> outcome == Err(ResourceNotFound)
    ensures outcome == Err(Forbidden) <==>
              found.Some? && IsConfidentialEncounter(found.value) &&
              !IsSystemAdmin(user) && !IsPatientItself(user, healthId)
    ensures found.Some? && !IsConfidentialEncounter(found.value) ==> outcome == Ok(found.value)
    ensures found.Some? && !(IsConfidentialEncounter(found.value) && !IsSystemAdmin(user) && !IsPatientItself(user, healthId))
            ==> outcome == Ok(found.value)
  {
    SingleEncounterOutcome(AccessForPatient(healthId, user), found)
  }

  /** A stale marker restarts the catchment feed at its first page. */
  lemma StaleMarkerRestartsAtFirstPage(catchment: string, date: Date, marker: string, limit: nat,
                                       access: Access, storage: (string, Date, nat) -> seq<Encounter>)
    requires !IsBlank(Some(marker))
    requires forall e :: e in storage(catchment, date, 2 * limit) ==> e.encounterId != marker
    ensures CatchmentPage(catchment, date, Some(marker), limit, access, storage, EncounterKey, Itself, FirstPage)
            == CatchmentPage(catchment, date, None, limit, access, storage, EncounterKey, Itself, FirstPage)
  {
    var rows := storage(catchment, date, 2 * limit);
    MissingMarkerPage(rows, EncounterKey, marker, limit, FirstPage);
  }
}
