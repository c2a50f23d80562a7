/**
 * The request flows the encounter controllers share: the catchment feed (checked, gated,
 * fetched, sliced at the marker, filtered, linked), the patient feed (gated, fetched,
 * denied as a whole or filtered) and the single-encounter decision. The controllers
 * differ only in the row type, the row key and the MarkerMiss rule, passed in here.
 */
module FeedHandlers {
  import opened Domain
  import opened AccessFilter
  import opened Paging
  import opened SearchResponse

  /** The error results a handler can set. */
  datatype HttpError =
    | BadRequest(reason: string)
    | Forbidden
    | ResourceNotFound
    | PreconditionFailed
    | UnprocessableEntity

  /** What a handler writes into its deferred result: a value or an error. */
  datatype Outcome<T> = Ok(value: T) | Err(error: HttpError)

  /** A catchment code names at least a division and a district. */
  const MinCatchmentLength := 4
  const CatchmentTooShort := "Catchment should have division and district"

  /** How many rows a patient feed asks storage for. */
  const PatientFeedLimit := 200

  /**
   * A patient feed for a caller that may read it: a restricted caller is refused the whole
   * feed when any row's patient is confidential; otherwise the rows are filtered by tier.
   */
  function PatientFeedOutcome<T(!new)>(access: Access, fetched: seq<T>, encounterOf: T -> Encounter)
    : (outcome: Outcome<seq<T>>)
    requires access != AccessDenied
    ensures outcome.Err? <==>
              access == AccessRestricted &&
              exists i :: 0 <= i < |fetched| && IsConfidential(encounterOf(fetched[i]).patientConfidentiality)
    ensures outcome.Err? ==> outcome.error == Forbidden
    ensures access == AccessUnrestricted ==> outcome == Ok(fetched)
    ensures outcome.Ok? && access == AccessRestricted ==>
              forall x :: x in outcome.value <==> x in fetched && !IsConfidentialEncounter(encounterOf(x))
    ensures outcome.Ok? ==> outcome.value == FilterEncounters(access == AccessRestricted, fetched, encounterOf)
  {
    var restricted := access == AccessRestricted;
    var encounters := EncountersOf(fetched, encounterOf);
    if restricted && IsConfidentialPatient(encounters) then
      Err(Forbidden)
    else
      var kept := FilterEncounters(restricted, fetched, encounterOf);
      FilterEncountersKeepsVisible(restricted, fetched, encounterOf);
      assert restricted ==> forall x :: x in fetched ==> !IsConfidential(encounterOf(x).patientConfidentiality) by {
        if restricted {
          forall x | x in fetched
            ensures !IsConfidential(encounterOf(x).patientConfidentiality)
          {
            var i :| 0 <= i < |fetched| && fetched[i] == x;
            assert encounters[i] == encounterOf(x);
          }
        }
      }
      Ok(kept)
  }

  /**
   * A single stored encounter: not found, refused when confidential and the caller is not
   * unrestricted (a denied caller included), or returned.
   */
  function SingleEncounterOutcome(access: Access, found: Option<Encounter>): (outcome: Outcome<Encounter>)
    ensures found.None? <==> outcome == Err(ResourceNotFound)
    ensures outcome == Err(Forbidden) <==>
              found.Some? && access != AccessUnrestricted && IsConfidentialEncounter(found.value)
    ensures outcome.Ok? ==> found == Some(outcome.value)
    ensures found.Some? && outcome != Err(Forbidden) ==> outcome == Ok(found.value)
  {
    match found
    case None => Err(ResourceNotFound)
    case Some(e) =>
      if access != AccessUnrestricted && IsConfidentialEncounter(e) then Err(Forbidden) else Ok(e)
  }

  /** A denied caller fares exactly as a restricted one on a single encounter. */
  lemma DeniedReadsLikeRestricted(found: Option<Encounter>)
    ensures SingleEncounterOutcome(AccessDenied, found) == SingleEncounterOutcome(AccessRestricted, found)
  {
  }

  /**
   * A restricted patient feed, when served, shows no confidential patient and no
   * confidential encounter.
   */
  lemma RestrictedPatientFeedHidesConfidential<T(!new)>(fetched: seq<T>, encounterOf: T -> Encounter)
    ensures var outcome := PatientFeedOutcome(AccessRestricted, fetched, encounterOf);
            outcome.Ok? ==> forall x :: x in outcome.value ==> VisibleWhenRestricted(encounterOf(x))
  {
  }

  /**
   * findFacilityCatchmentEncounterFeed: asks storage for twice the fetch limit and slices
   * the page at the marker.
   */
  method FacilityCatchmentFeed<T>(catchment: string, lastMarker: Option<string>, lastUpdateDate: Date,
                                  limit: nat, storage: (string, Date, nat) -> seq<T>,
                                  key: T -> string, onMiss: MarkerMiss)
    returns (page: seq<T>, ghost requested: nat)
    ensures requested == 2 * limit
    ensures page == PageAfterMarker(storage(catchment, lastUpdateDate, requested), key, lastMarker, limit, onMiss)
    ensures |page| <= limit
  {
    requested := limit * 2;
    var rows := storage(catchment, lastUpdateDate, limit * 2);
    page := FilterAfterMarker(rows, key, lastMarker, limit, onMiss);
    PageWithinLimit(rows, key, lastMarker, limit, onMiss);
  }

  /** The entries a served catchment feed holds. */
  function CatchmentPage<T(!new)>(catchment: string, date: Date, lastMarker: Option<string>, limit: nat,
                                  access: Access, storage: (string, Date, nat) -> seq<T>,
                                  key: T -> string, encounterOf: T -> Encounter, onMiss: MarkerMiss): seq<T>
  {
    FilterEncounters(access == AccessRestricted,
                     PageAfterMarker(storage(catchment, date, 2 * limit), key, lastMarker, limit, onMiss),
                     encounterOf)
  }

  /**
   * findEncounterFeedForCatchment: a short catchment is a bad request and a denied caller is
   * forbidden, both before storage is asked; otherwise the page is sliced from 2×limit rows,
   * filtered by tier, and linked to the next page computed from the filtered entries.
   */
  method CatchmentFeed<T(!new)>(catchment: string, updatedSince: Option<string>, lastMarker: Option<string>,
                                user: UserInfo, now: Date, parseDate: string -> Date, limit: nat,
                                storage: (string, Date, nat) -> seq<T>, key: T -> string,
                                receivedAt: T -> Date, encounterOf: T -> Encounter, onMiss: MarkerMiss)
    returns (outcome: Outcome<EncounterSearchResponse<T>>, ghost requested: Option<nat>)
    requires ValidDate(now)
    requires forall s :: ValidDate(parseDate(s))
    ensures |catchment| < MinCatchmentLength ==>
              outcome == Err(BadRequest(CatchmentTooShort)) && requested == None
    ensures |catchment| >= MinCatchmentLength && AccessForCatchment(catchment, user) == AccessDenied ==>
              outcome == Err(Forbidden) && requested == None
    ensures |catchment| >= MinCatchmentLength && AccessForCatchment(catchment, user) != AccessDenied ==>
              var date := CatchmentRequestDate(updatedSince, now, parseDate);
              var page := CatchmentPage(catchment, date, lastMarker, limit, AccessForCatchment(catchment, user),
                                        storage, key, encounterOf, onMiss);
              && requested == Some(2 * limit)
              && outcome.Ok? && fresh(outcome.value) && outcome.value.Valid()
              && outcome.value.entries == page
              && outcome.value.requestUrl == RequestLink(Some(date), lastMarker)
              && outcome.value.prevUrl == None
              && outcome.value.nextUrl == NextLink(page, key, receivedAt, date, now)
  {
    if |catchment| < MinCatchmentLength {
      return Err(BadRequest(CatchmentTooShort)), None;
    }
    var requestedDate := GetRequestedDateForCatchment(updatedSince, now, parseDate);
    var access := AccessForCatchment(catchment, user);
    if access == AccessDenied {
      return Err(Forbidden), None;
    }
    var rows, asked := FacilityCatchmentFeed(catchment, lastMarker, requestedDate, limit, storage, key, onMiss);
    requested := Some(asked);
    var entries := FilterEncounters(access == AccessRestricted, rows, encounterOf);
    var searchResponse := new EncounterSearchResponse(RequestLink(Some(requestedDate), lastMarker), entries);
    var next := GetNextResultUrl(entries, key, receivedAt, requestedDate, now);
    searchResponse.SetNavLinks(None, next);
    outcome := Ok(searchResponse);
  }

  /**
   * A patient feed: a denied caller is forbidden before storage is asked; otherwise at most
   * 200 rows are fetched and either refused as a whole or filtered. No navigation links.
   */
  method PatientFeed<T(!new)>(healthId: string, updatedSince: Option<string>, user: UserInfo,
                              parseDate: string -> Date, storage: (string, Option<Date>, nat) -> seq<T>,
                              encounterOf: T -> Encounter)
    returns (outcome: Outcome<EncounterSearchResponse<T>>, ghost requested: Option<nat>)
    ensures AccessForPatient(healthId, user) == AccessDenied ==> outcome == Err(Forbidden) && requested == None
    ensures AccessForPatient(healthId, user) != AccessDenied ==>
              var date := RequestedDate(updatedSince, parseDate);
              var decision := PatientFeedOutcome(AccessForPatient(healthId, user),
                                                 storage(healthId, date, PatientFeedLimit), encounterOf);
              && requested == Some(PatientFeedLimit)
              && (decision.Err? ==> outcome == Err(Forbidden))
              && (decision.Ok? ==>
                    && outcome.Ok? && fresh(outcome.value) && outcome.value.Valid()
                    && outcome.value.entries == decision.value
                    && outcome.value.requestUrl == FeedLink(date, None)
                    && outcome.value.prevUrl == None && outcome.value.nextUrl == None)
  {
    var access := AccessForPatient(healthId, user);
    if access == AccessDenied {
      return Err(Forbidden), None;
    }
    var requestedDate := RequestedDate(updatedSince, parseDate);
    var fetched := storage(healthId, requestedDate, PatientFeedLimit);
    requested := Some(PatientFeedLimit);
    var decision := PatientFeedOutcome(access, fetched, encounterOf);
    if decision.Err? {
      return Err(Forbidden), requested;
    }
    var searchResponse := new EncounterSearchResponse(FeedLink(requestedDate, None), decision.value);
    outcome := Ok(searchResponse);
  }
}
