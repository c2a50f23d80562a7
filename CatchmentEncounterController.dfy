/**
 * CatchmentEncounterController: the catchment feed over encounter events, keyed by the
 * event's time-based id. A marker that is not among the fetched rows yields an empty page.
 */
module CatchmentEncounterController {
  import opened Domain
  import opened AccessFilter
  import opened Paging
  import opened SearchResponse
  import opened FeedHandlers

  function EventId(e: EncounterEvent): string
  {
    e.id
  }

  function EventReceivedAt(e: EncounterEvent): Date
  {
    e.receivedAt
  }

  function EventEncounter(e: EncounterEvent): Encounter
  {
    e.encounter
  }

  /**
   * findEncounterFeedForCatchment: BadRequest for a catchment shorter than four characters
   * and Forbidden for a denied caller, neither asking storage; otherwise a page of at most
   * `fetchLimit` events sliced from 2×fetchLimit rows, filtered by tier, with the next link
   * computed from the filtered page.
   */
  method FindEncounterFeedForCatchment(catchment: string, updatedSince: Option<string>, lastMarker: Option<string>,
                                       user: UserInfo, now: Date, parseDate: string -> Date, fetchLimit: nat,
                                       storage: (string, Date, nat) -> seq<EncounterEvent>)
    returns (outcome: Outcome<EncounterSearchResponse<EncounterEvent>>, ghost requested: Option<nat>)
    requires ValidDate(now)
    requires forall s :: ValidDate(parseDate(s))
    ensures |catchment| < 4 ==> outcome == Err(BadRequest(CatchmentTooShort)) && requested == None
    ensures |catchment| >= 4 && AccessForCatchment(catchment, user) == AccessDenied ==>
              outcome == Err(Forbidden) && requested == None
    ensures |catchment| >= 4 && AccessForCatchment(catchment, user) != AccessDenied ==>
              var date := CatchmentRequestDate(updatedSince, now, parseDate);
              var page := CatchmentPage(catchment, date, lastMarker, fetchLimit, AccessForCatchment(catchment, user),
                                        storage, EventId, EventEncounter, EmptyPage);
              && requested == Some(2 * fetchLimit)
              && outcome.Ok? && fresh(outcome.value) && outcome.value.Valid()
              && outcome.value.entries == page && |page| <= fetchLimit
              && outcome.value.requestUrl == RequestLink(Some(date), lastMarker)
              && outcome.value.prevUrl == None
              && outcome.value.nextUrl == NextLink(page, EventId, EventReceivedAt, date, now)
  {
    outcome, requested := CatchmentFeed(catchment, updatedSince, lastMarker, user, now, parseDate, fetchLimit,
                                        storage, EventId, EventReceivedAt, EventEncounter, EmptyPage);
    if |catchment| >= 4 && AccessForCatchment(catchment, user) != AccessDenied {
      var date := CatchmentRequestDate(updatedSince, now, parseDate);
      PageWithinLimit(storage(catchment, date, 2 * fetchLimit), EventId, lastMarker, fetchLimit, EmptyPage);
    }
  }

  /** Every event carries an encounter whose patient and encounter are both Normal. */
  ghost predicate AllNormal(rows: seq<EncounterEvent>)
  {
    forall i :: 0 <= i < |rows| ==>
      rows[i].encounter.patientConfidentiality == Normal && rows[i].encounter.encounterConfidentiality == Normal
  }

  /** A restricted caller keeps every event of a Normal-only slice. */
  lemma NormalSliceKept(rows: seq<EncounterEvent>, lo: nat, hi: nat)
    requires AllNormal(rows) && lo <= hi <= |rows|
    ensures FilterEncounters(true, rows[lo..hi], EventEncounter) == rows[lo..hi]
  {
    var slice := rows[lo..hi];
    assert forall i :: 0 <= i < |slice| ==> slice[i] == rows[lo + i];
    AllVisibleAllKept(slice, EventEncounter);
  }

  /**
   * The first page of the controller test: 40 stored events of Normal confidentiality, a
   * limit of 20, no marker, and a facility caller of the catchment without an admin group,
   * so the restricted filter applies. The page is events 0..19 and the next link resumes
   * after event 19, at its arrival time.
   */
  lemma FirstPageOfForty(catchment: string, date: Date, now: Date, rows: seq<EncounterEvent>,
                         storage: (string, Date, nat) -> seq<EncounterEvent>)
    requires |rows| == 40 && storage(catchment, date, 40) == rows && AllNormal(rows)
    ensures var page := CatchmentPage(catchment, date, None, 20, AccessRestricted, storage,
                                      EventId, EventEncounter, EmptyPage);
            && page == rows[..20]
            && NextLink(page, EventId, EventReceivedAt, date, now)
               == Some(FeedLink(Some(rows[19].receivedAt), Some(rows[19].id)))
  {
    BlankMarkerPage(rows, EventId, None, 20, EmptyPage);
    NormalSliceKept(rows, 0, 20);
  }

  /**
   * The second request of the controller test, by the same restricted caller: resuming at
   * event 21 of the 40 gives 18 events, resuming at the last event gives none.
   */
  lemma LaterPagesOfForty(catchment: string, date: Date, rows: seq<EncounterEvent>,
                          storage: (string, Date, nat) -> seq<EncounterEvent>)
    requires |rows| == 40 && storage(catchment, date, 40) == rows && UniqueKeys(rows, EventId) && AllNormal(rows)
    requires !IsBlank(Some(rows[21].id)) && !IsBlank(Some(rows[39].id))
    ensures CatchmentPage(catchment, date, Some(rows[21].id), 20, AccessRestricted, storage,
                          EventId, EventEncounter, EmptyPage) == rows[22..40]
    ensures CatchmentPage(catchment, date, Some(rows[39].id), 20, AccessRestricted, storage,
                          EventId, EventEncounter, EmptyPage) == []
  {
    ResumeAfterRow(rows, EventId, 22, 20, EmptyPage);
    ResumeAfterRow(rows, EventId, 40, 20, EmptyPage);
    NormalSliceKept(rows, 22, 40);
    NormalSliceKept(rows, 40, 40);
  }

  /**
   * A marker that is not among the fetched events gives an empty page, whose next link is the
   * rollover to the following month for a past year and nothing otherwise.
   */
  lemma StaleMarkerGivesEmptyPage(catchment: string, date: Date, now: Date, marker: string, limit: nat,
                                  access: Access, storage: (string, Date, nat) -> seq<EncounterEvent>)
    requires !IsBlank(Some(marker))
    requires forall e :: e in storage(catchment, date, 2 * limit) ==> e.id != marker
    ensures var page := CatchmentPage(catchment, date, Some(marker), limit, access, storage,
                                      EventId, EventEncounter, EmptyPage);
            && page == []
            && NextLink(page, EventId, EventReceivedAt, date, now)
               == if date.year < now.year then Some(FeedLink(Some(FirstOfNextMonth(date)), None)) else None
  {
    var rows := storage(catchment, date, 2 * limit);
    MissingMarkerPage(rows, EventId, marker, limit, EmptyPage);
  }

  /**
   * The next link is computed after filtering: when every event of a restricted caller's
   * page is confidential, the page is empty and the link is the empty page's rollover, so
   * in the current year the feed offers no way past those events, and in a past year it
   * moves on to the next month, past any later events of the same month.
   */
  lemma HiddenPageHasNoMarker(catchment: string, date: Date, now: Date, lastMarker: Option<string>, limit: nat,
                              storage: (string, Date, nat) -> seq<EncounterEvent>)
    requires forall e :: e in PageAfterMarker(storage(catchment, date, 2 * limit), EventId, lastMarker, limit, EmptyPage)
                         ==> !VisibleWhenRestricted(e.encounter)
    ensures var page := CatchmentPage(catchment, date, lastMarker, limit, AccessRestricted, storage,
                                      EventId, EventEncounter, EmptyPage);
            && page == []
            && NextLink(page, EventId, EventReceivedAt, date, now)
               == if date.year < now.year then Some(FeedLink(Some(FirstOfNextMonth(date)), None)) else None
  {
    var sliced := PageAfterMarker(storage(catchment, date, 2 * limit), EventId, lastMarker, limit, EmptyPage);
    assert forall i :: 0 <= i < |sliced| ==> sliced[i] in sliced && EventEncounter(sliced[i]) == sliced[i].encounter;
    NothingVisibleNothingKept(sliced, EventEncounter);
  }
}
