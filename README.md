# FreeSHR encounter core, modelled in Dafny

FreeSHR is a shared health record: facilities and providers post clinical encounters (FHIR
DSTU1 atom feeds) for a patient, and read them back either one patient at a time or as a feed
of everything that arrived for a catchment (a hierarchical area code such as `3026` or
`302618`). This project models the request handling of that core:

- the catchment feeds of `CatchmentEncounterController` and the older `EncounterController`:
  the length check, the access gate, the fetch of twice the page size, marker-based slicing,
  confidentiality filtering and the next link, including the month-by-month rollover for past
  years;
- the patient feeds and the single-encounter fetch of both controllers, and the create and
  update flows of `PatientEncounterController` with `PatientEncounterService`;
- the access decision, reduced to the tri-state answer the access-filter test fixes
  (denied / restricted / unrestricted), and the confidentiality filters;
- the search and validation response objects, as classes whose methods update their fields;
- the validators: health id, resource-type dispatch, code-validator lookup, encounter type,
  observation performer.

Collaborators that the core calls but does not define are parameters: storage queries, the
patient registry, the clock (`now`), the uuid generator (`newId`), date parsing
(`parseDate`), the confidentiality-code mapping, the outcome of a save, and the individual
entry validators. Ghost out-parameters record whether storage or the registry was asked, so that
"refused before the lookup" can be stated. Links are `FeedLink` values holding only the
`updatedSince` and `lastMarker` query parameters, and HTTP results are an `Outcome`:
a value or one of `BadRequest`, `Forbidden`, `ResourceNotFound`, `PreconditionFailed`
and `UnprocessableEntity`.

Behaviours the proofs make explicit:

- **A stale marker.** A marker that is not among the fetched rows gives an empty page in
  `CatchmentEncounterController`, and the first page again in `EncounterController`.
- **Catchment prefixes.** The catchment prefix rule runs one way. A registered catchment covers
  every catchment it is a prefix of, and does not cover its own prefixes, as
  `AccessFilterTest.java` line 112 fixes: a facility registered for `302618` is denied `3026`.
- **System admins on catchment feeds.** A system admin with no covering facility or provider
  catchment is denied a catchment feed.
- **Single-encounter fetches.** The access decision is not a gate: only a confidential
  encounter is refused to a caller who is not unrestricted, and a denied caller is treated
  like a restricted one.
- **Filtering before the next link.** The next link is computed from the page after filtering.
  When every event on a restricted caller's page is confidential, the page is empty. In the
  current year such a page carries no next link, so the feed offers no way past those events.
  In a past year it rolls over to the next month, past any later events of the same month
  (`CatchmentEncounterController.HiddenPageHasNoMarker`).

## Model

| member | source | states |
|---|---|---|
| Domain.ConfidentialLevels | shr/src/test/java/org/freeshr/utils/AccessFilterTest.java:184-205 | a level is confidential exactly when it is Restricted or VeryRestricted |
| Domain.AtMostIsTotalOrder | shr/src/test/java/org/freeshr/utils/AccessFilterTest.java:184-205 | the comparison used by every confidentiality check is a total order on the six levels |
| Calendars.Calendar.FromDate | shr/src/main/java/org/freeshr/interfaces/encounter/ws/CatchmentEncounterController.java:153-154 | a calendar set from a date reads back that date |
| Calendars.Calendar.AddMonth | shr/src/main/java/org/freeshr/interfaces/encounter/ws/CatchmentEncounterController.java:161 | adding a month advances the month index by exactly one, December into January of the next year, day pinned to the new month's length, time of day kept |
| AccessFilter.AccessForPatient | shr/src/test/java/org/freeshr/utils/AccessFilterTest.java:65-103 | isAccessRestrictedToEncounterFetchForPatient: unrestricted for a system admin or the patient itself, restricted for any other holder of a facility or provider profile, denied otherwise; its test cases are `PatientTestCases` |
| AccessFilter.AccessForCatchment | shr/src/test/java/org/freeshr/utils/AccessFilterTest.java:105-163 | isAccessRestrictedToEncounterFetchForCatchment: denied unless a facility or provider catchment is a prefix of the requested one, then unrestricted for a system admin and restricted otherwise; its test cases are `CatchmentTestCases` |
| AccessFilter.PatientTestCases | shr/src/test/java/org/freeshr/utils/AccessFilterTest.java:43-103 | the test's six identities get exactly the eight patient-feed answers the test asserts: restricted for facility, facility-and-provider, provider and provider-and-patient on another id; unrestricted for the system admin and a patient on its own id; denied for a patient on another id |
| AccessFilter.CatchmentTestCases | shr/src/test/java/org/freeshr/utils/AccessFilterTest.java:43-163 | the test's identities get exactly the twelve catchment answers the test asserts, including the provider, provider-and-patient and patient cases |
| AccessFilter.PatientOnlyNeverReadsCatchments | shr/src/test/java/org/freeshr/utils/AccessFilterTest.java:140-143 | an identity with only patient profiles is denied every catchment |
| AccessFilter.CatchmentScopeIsPrefix | shr/src/test/java/org/freeshr/utils/AccessFilterTest.java:105-163 | a catchment shorter than every registered one is denied; access to a catchment extends to all its extensions |
| AccessFilter.FilterEncounters | shr/src/test/java/org/freeshr/utils/AccessFilterTest.java:165-173 | unrestricted keeps every entry; the result is never longer than the input |
| AccessFilter.FilterEncountersKeepsVisible | shr/src/test/java/org/freeshr/utils/AccessFilterTest.java:165-173 | restricted keeps exactly the entries whose patient and encounter are both non-confidential, and no entry more often than it occurs |
| AccessFilter.AllVisibleAllKept | shr/src/test/java/org/freeshr/utils/AccessFilterTest.java:165-173 | a restricted caller keeps every entry, in order, when all are visible |
| AccessFilter.NothingVisibleNothingKept | shr/src/test/java/org/freeshr/utils/AccessFilterTest.java:165-173 | a restricted caller is left with nothing when no entry is visible to it |
| AccessFilter.FilterEncountersCons | shr/src/test/java/org/freeshr/utils/AccessFilterTest.java:165-173 | the first entry is filtered on its own, ahead of the rest |
| AccessFilter.FilterEncountersSingle | shr/src/test/java/org/freeshr/utils/AccessFilterTest.java:165-173 | one entry is kept exactly when the caller is unrestricted or the entry is visible to a restricted caller |
| AccessFilter.FilterEncountersAppend | shr/src/test/java/org/freeshr/utils/AccessFilterTest.java:165-173 | filtering a concatenation is the concatenation of the filtered parts, so the kept entries keep their order and multiplicity |
| AccessFilter.EncountersOf | shr/src/main/java/org/freeshr/interfaces/encounter/ws/PatientEncounterController.java:119 | the bundles of a list of events, one per event in the same order |
| AccessFilter.IsConfidentialPatient | shr/src/test/java/org/freeshr/utils/AccessFilterTest.java:183-205 | true exactly when some bundle's patient is stricter than Normal |
| AccessFilter.RestrictedFilterHidesConfidential | shr/src/test/java/org/freeshr/utils/AccessFilterTest.java:165-173 | after a restricted filter no confidential patient or encounter remains |
| Paging.RequestLink | shr/src/main/java/org/freeshr/interfaces/encounter/ws/EncounterController.java:312-323 | the request link carries the date, and the marker exactly when it is not blank |
| Paging.MarkerIndexIsFirst | shr/src/main/java/org/freeshr/interfaces/encounter/ws/CatchmentEncounterController.java:207-216 | the index of the first row whose key is the marker, or -1 when no row has it |
| Paging.IdentifyLastMarker | shr/src/main/java/org/freeshr/interfaces/encounter/ws/CatchmentEncounterController.java:207-216 | the scan returns the index of the first matching row, or -1 |
| Paging.FilterAfterMarker | shr/src/main/java/org/freeshr/interfaces/encounter/ws/CatchmentEncounterController.java:171-205 | the sliced page: first rows for a blank marker, rows after the marker, and on a miss empty or the first page |
| Paging.PageWithinLimit | shr/src/main/java/org/freeshr/interfaces/encounter/ws/CatchmentEncounterController.java:177-191 | a page never exceeds the limit |
| Paging.BlankMarkerPage | shr/src/main/java/org/freeshr/interfaces/encounter/ws/CatchmentEncounterController.java:177-180 | with a blank marker the page is the first min(limit, n) rows |
| Paging.FoundMarkerPage | shr/src/main/java/org/freeshr/interfaces/encounter/ws/CatchmentEncounterController.java:182-189 | a marker first found at index i gives rows i+1 up to i+1+limit |
| Paging.MissingMarkerPage | shr/src/main/java/org/freeshr/interfaces/encounter/ws/CatchmentEncounterController.java:182-191 | an absent marker gives the empty page, or for EncounterController the first page |
| Paging.ResumeAfterRow | shr/src/main/java/org/freeshr/interfaces/encounter/ws/CatchmentEncounterController.java:182-189 | with unique keys, resuming at row e-1's key serves the rows from e on |
| Paging.FirstTwoPagesArePrefix | shr/src/main/java/org/freeshr/interfaces/encounter/ws/CatchmentEncounterController.java:177-189 | first page followed by the page after its last key is a prefix of the rows: nothing skipped, nothing repeated |
| Paging.FortyRowWindow | shr/src/test/java/org/freeshr/interfaces/encounter/ws/CatchmentEncounterControllerTest.java:69-104 | over 40 rows with limit 20 the first page is rows 0..19, resuming at row 21 gives 18 rows, at row 39 none |
| Paging.MonthStartIndex | shr/src/main/java/org/freeshr/interfaces/encounter/ws/CatchmentEncounterController.java:163-164 | day 1 of a month index is a valid date with that index |
| Paging.FirstOfNextMonthAdvances | shr/src/main/java/org/freeshr/interfaces/encounter/ws/CatchmentEncounterController.java:160-166 | the rollover date is valid, one month on, day 1 at midnight, December to January, and strictly later |
| Paging.RollingFeedUrl | shr/src/main/java/org/freeshr/interfaces/encounter/ws/CatchmentEncounterController.java:152-169 | a link exactly for a past year, pointing at day 1 of the following month without a marker |
| Paging.RolledForwardIndex | shr/src/main/java/org/freeshr/interfaces/encounter/ws/CatchmentEncounterController.java:160-164 | following n rollovers moves n months forward and stays a valid date |
| Paging.RolloverWalkStopsAtCurrentYear | shr/src/main/java/org/freeshr/interfaces/encounter/ws/CatchmentEncounterController.java:152-169 | after n rollovers from a past year the feed still rolls over exactly while it is before January of the current year |
| Paging.RequestedDate | shr/src/main/java/org/freeshr/interfaces/encounter/ws/CatchmentEncounterController.java:135-137 | no date exactly for a blank updatedSince, otherwise the parsed one |
| Paging.GetRequestedDateForCatchment | shr/src/main/java/org/freeshr/interfaces/encounter/ws/CatchmentEncounterController.java:119-133 | a blank updatedSince means day 1 of the current month at midnight, a valid date not after now; otherwise the parsed date |
| Paging.GetNextResultUrl | shr/src/main/java/org/freeshr/interfaces/encounter/ws/CatchmentEncounterController.java:139-150 | the last entry's arrival time and key, or for an empty page the rollover link |
| Paging.NextLinkResumes | shr/src/main/java/org/freeshr/interfaces/encounter/ws/CatchmentEncounterController.java:139-150 | within the same fetched rows, the marker of a non-empty page's next link selects exactly the rows after that page |
| Paging.NextRequestResumes | shr/src/main/java/org/freeshr/interfaces/encounter/ws/CatchmentEncounterController.java:103-111 | across requests: when storage, asked again from the last row's arrival time, answers with unique keys and that row followed by the later rows, the next page is the first `limit` of those later rows |
| Paging.EmptyPageRollover | shr/src/main/java/org/freeshr/interfaces/encounter/ws/CatchmentEncounterController.java:142-146 | an empty page links on exactly for a past year, one month forward on day 1 with no marker |
| SearchResponse.EncounterSearchResponse.constructor | shr/src/main/java/org/freeshr/interfaces/encounter/ws/EncounterSearchResponse.java:9-20 | request link and entries as given, author FreeSHR and title Encounters, no navigation links |
| SearchResponse.EncounterSearchResponse.SetNavLinks | shr/src/main/java/org/freeshr/interfaces/encounter/ws/EncounterSearchResponse.java:34-37 | sets both links and changes nothing else |
| FeedHandlers.PatientFeedOutcome | shr/src/main/java/org/freeshr/interfaces/encounter/ws/PatientEncounterController.java:119-127 | refused exactly when restricted and some patient is confidential; otherwise the fetched list filtered by tier, in order: all of it when unrestricted, exactly the non-confidential encounters when restricted |
| FeedHandlers.SingleEncounterOutcome | shr/src/main/java/org/freeshr/interfaces/encounter/ws/PatientEncounterController.java:163-174 | not found exactly when absent; Forbidden exactly when found, confidential and the caller is not unrestricted; a found encounter that is not refused is returned as it is |
| FeedHandlers.DeniedReadsLikeRestricted | shr/src/main/java/org/freeshr/interfaces/encounter/ws/PatientEncounterController.java:166 | a denied caller fares as a restricted one on a single encounter |
| FeedHandlers.RestrictedPatientFeedHidesConfidential | shr/src/main/java/org/freeshr/interfaces/encounter/ws/PatientEncounterController.java:120-123 | a served restricted patient feed holds no confidential patient or encounter |
| FeedHandlers.FacilityCatchmentFeed | shr/src/main/java/org/freeshr/interfaces/encounter/ws/CatchmentEncounterController.java:103-111 | storage is asked for twice the limit and the page is sliced at the marker, within the limit |
| FeedHandlers.CatchmentFeed | shr/src/main/java/org/freeshr/interfaces/encounter/ws/CatchmentEncounterController.java:61-95 | short catchment is BadRequest and denied is Forbidden, both without a storage call; otherwise 2×limit rows, sliced, filtered, linked from the filtered page |
| FeedHandlers.PatientFeed | shr/src/main/java/org/freeshr/interfaces/encounter/ws/PatientEncounterController.java:105-128 | denied is Forbidden without a storage call; otherwise 200 rows asked, refused or filtered, no navigation links |
| Fhir.ValidationMessages.Add | shr/src/main/java/org/freeshr/validations/EncounterTypeValidator.java:20-21 | appends one message to the list |
| Fhir.Ordinal | shr/src/main/java/org/freeshr/validations/ResourceValidator.java:39 | every resource type occurs in the list of all types the default fill iterates |
| ValidationResponse.EncounterValidationResponse.constructor | shr/src/main/java/org/freeshr/application/fhir/EncounterValidationResponse.java:12-14 | no errors, no encounter id, no feed |
| ValidationResponse.EncounterValidationResponse.IsSuccessful | shr/src/main/java/org/freeshr/application/fhir/EncounterValidationResponse.java:20-22 | successful exactly when no error was added |
| ValidationResponse.EncounterValidationResponse.IsNotSuccessful | shr/src/main/java/org/freeshr/application/fhir/EncounterValidationResponse.java:24-26 | the negation of IsSuccessful |
| ValidationResponse.EncounterValidationResponse.AddError | shr/src/main/java/org/freeshr/application/fhir/EncounterValidationResponse.java:16-18 | appends the error, which makes the response unsuccessful |
| ValidationResponse.EncounterValidationResponse.SetEncounterId | shr/src/main/java/org/freeshr/application/fhir/EncounterValidationResponse.java:32-34 | sets the id, errors and feed unchanged |
| ValidationResponse.EncounterValidationResponse.SetFeed | shr/src/main/java/org/freeshr/application/fhir/EncounterValidationResponse.java:67-69 | the feed is present and is the given one, errors and id unchanged |
| ValidationResponse.EncounterValidationResponse.MergeErrors | shr/src/main/java/org/freeshr/application/fhir/EncounterValidationResponse.java:61-65 | the other response's errors are appended in order; successful exactly when both were |
| ValidationResponse.SevereErrorsAreTheSevereMessages | shr/src/main/java/org/freeshr/application/fhir/EncounterValidationResponse.java:40-44 | exactly the messages more severe than warning become errors; none exactly when all are warning or milder |
| ValidationResponse.SevereErrorsAppend | shr/src/main/java/org/freeshr/application/fhir/EncounterValidationResponse.java:40-44 | filtering distributes over concatenation of message lists |
| ValidationResponse.FromValidationMessages | shr/src/main/java/org/freeshr/application/fhir/EncounterValidationResponse.java:40-44 | a fresh response holding the severe messages' errors, successful exactly when every message is a warning or information |
| ValidationResponse.CreateErrorResponse | shr/src/main/java/org/freeshr/application/fhir/EncounterValidationResponse.java:47-51 | a fresh unsuccessful response with the single error Unknown/invalid/message |
| HealthIdValidator.EnsureSuffix | shr/src/main/java/org/freeshr/validations/HealthIdValidator.java:67 | the result ends with the suffix and extends the input by at most the suffix |
| HealthIdValidator.TrimStartDropsLeadingBlanks | shr/src/main/java/org/freeshr/validations/HealthIdValidator.java:68 | drops exactly the leading characters up to space, leaving a suffix that starts with a non-blank |
| HealthIdValidator.TrimEndDropsTrailingBlanks | shr/src/main/java/org/freeshr/validations/HealthIdValidator.java:68 | drops exactly the trailing characters up to space, leaving a prefix that ends with a non-blank |
| HealthIdValidator.TrimEndIgnoresPadding | shr/src/main/java/org/freeshr/validations/HealthIdValidator.java:68 | trailing padding does not change the trimmed string |
| HealthIdValidator.TrimmedExpectedUrl | shr/src/main/java/org/freeshr/validations/HealthIdValidator.java:67-68 | trimming the expected reference trims only the reference path's leading blanks, for an id not ending in a blank |
| HealthIdValidator.EqualsIgnoreCasePointwise | shr/src/main/java/org/freeshr/validations/HealthIdValidator.java:68 | equal ignoring case exactly when of equal length and equal position by position once lowered |
| HealthIdValidator.TrimStartRespectsCase | shr/src/main/java/org/freeshr/validations/HealthIdValidator.java:68 | strings equal ignoring case stay equal ignoring case after their leading blanks are trimmed |
| HealthIdValidator.TrimEndRespectsCase | shr/src/main/java/org/freeshr/validations/HealthIdValidator.java:68 | strings equal ignoring case stay equal ignoring case after their trailing blanks are trimmed |
| HealthIdValidator.TrimStartIgnoresPadding | shr/src/main/java/org/freeshr/validations/HealthIdValidator.java:68 | leading padding does not change the trimmed string |
| HealthIdValidator.EqualsIgnoreCaseReflexive | shr/src/main/java/org/freeshr/validations/HealthIdValidator.java:68 | every string equals itself ignoring case |
| HealthIdValidator.LastIndexOfIsLast | shr/src/main/java/org/freeshr/validations/HealthIdValidator.java:80 | the answered index holds the character and no later position does; -1 only when none does |
| HealthIdValidator.HealthIdFromUrl | shr/src/main/java/org/freeshr/validations/HealthIdValidator.java:79-81 | getHealthIdFromUrl: the text after the last slash, or the whole URL without one; its properties are `HealthIdIsLastSegment` |
| HealthIdValidator.HealthIdIsLastSegment | shr/src/main/java/org/freeshr/validations/HealthIdValidator.java:79-81 | the id is a slash-free suffix of the URL, preceded by a slash whenever it is not the whole URL |
| HealthIdValidator.HealthIdFromExpectedUrl | shr/src/main/java/org/freeshr/validations/HealthIdValidator.java:66-81 | the id read back from the expected URL is the health id it was built from |
| HealthIdValidator.ExpectedUrlIsAccepted | shr/src/main/java/org/freeshr/validations/HealthIdValidator.java:66-72 | the expected URL, with any leading padding, is accepted |
| HealthIdValidator.OtherHealthIdMatchesOnlyIgnoringCase | shr/src/main/java/org/freeshr/validations/HealthIdValidator.java:66-72 | for ids not ending in blanks, the reference built for one id is accepted for another exactly when the two are equal ignoring case, so a different id is rejected |
| HealthIdValidator.WrongHealthIdRejected | shr/src/test/java/org/freeshr/validations/HealthIdValidatorTest.java:50-57 | a reference to 5893922485019082753 is not identified for 11112222233333, and its entry gets the one mismatch message |
| HealthIdValidator.CaseVariantIsAccepted | shr/src/main/java/org/freeshr/validations/HealthIdValidator.java:66-72 | any reference equal to the expected one ignoring case, with blanks before and after it, is accepted |
| HealthIdValidator.UpperCasedPaddedUrlIsAccepted | shr/src/main/java/org/freeshr/validations/HealthIdValidator.java:66-72 | the expected reference upper-cased and padded on both sides is accepted |
| HealthIdValidator.ValidateAndIdentifyPatientId | shr/src/main/java/org/freeshr/validations/HealthIdValidator.java:66-72 | an id exactly when the URL matches the expected one ignoring case and padding, and then the id after the last slash |
| HealthIdValidator.HealthIdMessages | shr/src/main/java/org/freeshr/validations/HealthIdValidator.java:36-63 | at most one message per entry |
| HealthIdValidator.HasValue | shr/src/main/java/org/freeshr/validations/HealthIdValidator.java:74-77 | hasValue: the reference child is present and holds at least one value |
| HealthIdValidator.MessagesStep | shr/src/main/java/org/freeshr/validations/HealthIdValidator.java:36-62 | one entry's contribution: stop at a composition without subject, a mismatch message, or nothing |
| HealthIdValidator.EntryMessagesOfReference | shr/src/main/java/org/freeshr/validations/HealthIdValidator.java:53-61 | an entry without a reference adds nothing; one with a reference adds a mismatch exactly when its first reference is not identified |
| HealthIdValidator.ScanStep | shr/src/main/java/org/freeshr/validations/HealthIdValidator.java:36-62 | scanning on past an entry that does not stop the scan appends that entry's messages and nothing else |
| HealthIdValidator.Validate | shr/src/main/java/org/freeshr/validations/HealthIdValidator.java:31-64 | the loop's messages equal the specification over the whole feed |
| HealthIdValidator.MessagesAreInvalidErrors | shr/src/main/java/org/freeshr/validations/HealthIdValidator.java:46-61 | every message is an invalid error: the not-present message or a mismatch for one of the entries |
| HealthIdValidator.AllMatchingMeansNoMessages | shr/src/main/java/org/freeshr/validations/HealthIdValidator.java:53-61 | a feed whose entries all match yields no message |
| HealthIdValidator.MessagesOfAppendedEntry | shr/src/main/java/org/freeshr/validations/HealthIdValidator.java:53-61 | without compositions lacking a subject, an appended entry adds only its own mismatch message |
| HealthIdValidator.CompositionWithoutSubjectStops | shr/src/main/java/org/freeshr/validations/HealthIdValidator.java:46-51 | the entries after the first composition without a subject are not looked at |
| HealthIdValidator.NotPresentMessageComesLast | shr/src/main/java/org/freeshr/validations/HealthIdValidator.java:46-51 | when a composition without a subject is present, the not-present message is the last one |
| ResourceValidator.FeedMessagesAppend | shr/src/main/java/org/freeshr/validations/ResourceValidator.java:49-53 | the messages of two feeds are the concatenation of each feed's messages |
| ResourceValidator.EntryMessagesInPlace | shr/src/main/java/org/freeshr/validations/ResourceValidator.java:49-53 | each entry's messages come from its type's validator, in feed order |
| ResourceValidator.ResourceValidator.constructor | shr/src/main/java/org/freeshr/validations/ResourceValidator.java:26-36 | every type has a validator: the four overrides for their types and the default for the rest |
| ResourceValidator.ResourceValidator.AssignDefaultValidatorToAllResourceTypes | shr/src/main/java/org/freeshr/validations/ResourceValidator.java:38-42 | every resource type is mapped to the default validator |
| ResourceValidator.ResourceValidator.Validate | shr/src/main/java/org/freeshr/validations/ResourceValidator.java:45-55 | the loop's messages equal the per-entry dispatch over the whole feed |
| CodeValidatorFactory.ContainsFrom | shr/src/main/java/org/freeshr/infrastructure/tr/CodeValidatorFactory.java:44 | true exactly when the key occurs at some position from the start index |
| CodeValidatorFactory.CodeValidatorFactory.constructor | shr/src/main/java/org/freeshr/infrastructure/tr/CodeValidatorFactory.java:25-37 | the map holds the four registrations in put order, and the mapping is kept |
| CodeValidatorFactory.CodeValidatorFactory.EffectiveUrl | shr/src/main/java/org/freeshr/infrastructure/tr/CodeValidatorFactory.java:41-42 | a mapped URL is replaced by its mapping, any other kept |
| CodeValidatorFactory.CodeValidatorFactory.GetValidator | shr/src/main/java/org/freeshr/infrastructure/tr/CodeValidatorFactory.java:40-49 | a validator exactly when some registered key occurs in the effective URL, and then the validator of such a key |
| CodeValidatorFactory.FourDistinctRegistrations | shr/src/main/java/org/freeshr/infrastructure/tr/CodeValidatorFactory.java:30-34 | with four distinct patterns, each keeps its own validator |
| EncounterTypeValidator.FindEncounterType | shr/src/main/java/org/freeshr/validations/EncounterTypeValidator.java:25-29 | findEncounterType: the list of known types, empty |
| EncounterTypeValidator.SkipCheckForThisTypeOfEntry | shr/src/main/java/org/freeshr/validations/EncounterTypeValidator.java:31-34 | no entry is skipped |
| EncounterTypeValidator.TypeMessages | shr/src/main/java/org/freeshr/validations/EncounterTypeValidator.java:17-23 | no message exactly when the type is present and known, otherwise exactly one Invalid Encounter Type message |
| EncounterTypeValidator.Validate | shr/src/main/java/org/freeshr/validations/EncounterTypeValidator.java:17-23 | appends that entry's messages to the list |
| EncounterTypeValidator.EveryEntryRejected | shr/src/main/java/org/freeshr/validations/EncounterTypeValidator.java:25-34 | with the empty list of known types, no entry is skipped and every entry is rejected |
| EncounterTypeValidator.ListedTypeAccepted | shr/src/main/java/org/freeshr/validations/EncounterTypeValidator.java:19 | a type in the known list is accepted |
| ObservationPerformer.CanHandle | shr/src/main/java/org/freeshr/validations/ProviderSubResourceValidators/ObservationPerformer.java:16-19 | canHandle: exactly the observations are handled |
| ObservationPerformer.ExtractUrls | shr/src/main/java/org/freeshr/validations/ProviderSubResourceValidators/ObservationPerformer.java:22-30 | none exactly when there are no performers, otherwise the first performer's reference, empty when it has none |
| ObservationPerformer.LaterPerformersIgnored | shr/src/main/java/org/freeshr/validations/ProviderSubResourceValidators/ObservationPerformer.java:23-26 | performers after the first do not change the result |
| PatientEncounterService.GetEncounterConfidentiality | shr/src/main/java/org/freeshr/domain/service/PatientEncounterService.java:141-156 | the loop's answer is the first composition's confidentiality |
| PatientEncounterService.NoCompositionMeansNormal | shr/src/main/java/org/freeshr/domain/service/PatientEncounterService.java:141-156 | a feed without a composition is Normal |
| PatientEncounterService.FirstCompositionDecides | shr/src/main/java/org/freeshr/domain/service/PatientEncounterService.java:143-153 | only the first composition counts; uncoded means Normal |
| PatientEncounterService.PopulateEncounterBundleFields | shr/src/main/java/org/freeshr/domain/service/PatientEncounterService.java:122-133 | new id, patient and feed confidentiality, one timestamp and one requester for both fields; content and health id kept |
| PatientEncounterService.EnsureCreated | shr/src/main/java/org/freeshr/domain/service/PatientEncounterService.java:47-120 | validation failure returns its errors without asking the registry; unknown patient is a precondition failure; otherwise populated and saved, with the id exactly when the save succeeded |
| PatientEncounterService.FindEncounter | shr/src/main/java/org/freeshr/domain/service/PatientEncounterService.java:61-68 | the stored encounter exactly when it belongs to the patient |
| CatchmentEncounterController.FindEncounterFeedForCatchment | shr/src/main/java/org/freeshr/interfaces/encounter/ws/CatchmentEncounterController.java:50-101 | the catchment feed over events keyed by event id, empty page on a stale marker, at most the fetch limit |
| CatchmentEncounterController.FirstPageOfForty | shr/src/test/java/org/freeshr/interfaces/encounter/ws/CatchmentEncounterControllerTest.java:69-95 | 40 Normal events, limit 20, a restricted facility caller of the catchment: events 0..19, next link at event 19 |
| CatchmentEncounterController.LaterPagesOfForty | shr/src/test/java/org/freeshr/interfaces/encounter/ws/CatchmentEncounterControllerTest.java:96-103 | same restricted caller: resuming at event 21 gives events 22..39 (18 of them), at the last event none |
| CatchmentEncounterController.StaleMarkerGivesEmptyPage | shr/src/main/java/org/freeshr/interfaces/encounter/ws/CatchmentEncounterController.java:182-191 | a stale marker gives an empty page, linked on only for a past year |
| CatchmentEncounterController.HiddenPageHasNoMarker | shr/src/main/java/org/freeshr/interfaces/encounter/ws/CatchmentEncounterController.java:76-81 | a restricted page that is all confidential is empty and its next link carries no marker |
| EncounterController.CreateOutcome | shr/src/main/java/org/freeshr/interfaces/encounter/ws/EncounterController.java:63-75 | success is the result; a precondition failure is PreconditionFailed, any other failure UnprocessableEntity |
| EncounterController.FindEncountersForPatient | shr/src/main/java/org/freeshr/interfaces/encounter/ws/EncounterController.java:93-140 | denied is Forbidden without a storage call; 200 asked; restricted with a confidential patient is Forbidden; otherwise the filtered bundles |
| EncounterController.FindEncountersForCatchment | shr/src/main/java/org/freeshr/interfaces/encounter/ws/EncounterController.java:145-193 | the catchment feed over stored encounters keyed by encounter id and linked by received date, the first page on a stale marker, at most the fetch limit |
| EncounterController.FindEncounterForPatient | shr/src/main/java/org/freeshr/interfaces/encounter/ws/EncounterController.java:198-236 | not found, Forbidden exactly for a confidential encounter and a caller neither system admin nor the patient; every other found encounter is returned as it is |
| EncounterController.StaleMarkerRestartsAtFirstPage | shr/src/main/java/org/freeshr/interfaces/encounter/ws/EncounterController.java:326-348 | a stale marker serves the first page again |
| PatientEncounterController.EncounterSaveCallback | shr/src/main/java/org/freeshr/interfaces/encounter/ws/PatientEncounterController.java:199-211 | the response is the result exactly when successful, otherwise a precondition or unprocessable error |
| PatientEncounterController.CallbackAgreesWithEncounterController | shr/src/main/java/org/freeshr/interfaces/encounter/ws/PatientEncounterController.java:199-211 | the two controllers route every save response the same way |
| PatientEncounterController.Create | shr/src/main/java/org/freeshr/interfaces/encounter/ws/PatientEncounterController.java:47-66 | the path health id is stamped; validation failure is UnprocessableEntity, unknown patient PreconditionFailed, otherwise a success carrying the id exactly when saved |
| PatientEncounterController.Update | shr/src/main/java/org/freeshr/interfaces/encounter/ws/PatientEncounterController.java:71-91 | both path ids are stamped, nothing else changes, and the answer is routed by the save callback |
| PatientEncounterController.FindEncounterFeedForPatient | shr/src/main/java/org/freeshr/interfaces/encounter/ws/PatientEncounterController.java:96-145 | denied is Forbidden without a feed call; 200 asked; restricted with a confidential patient is Forbidden; otherwise the filtered events |
| PatientEncounterController.FindEncountersForPatientByEncounterId | shr/src/main/java/org/freeshr/interfaces/encounter/ws/PatientEncounterController.java:150-188 | not found exactly when absent or another patient's; Forbidden exactly when confidential and the caller is neither system admin nor the patient; otherwise the patient's stored encounter is returned as it is |

## Left out

- Rx observables, `DeferredResult` and the error callbacks: each handler is one synchronous call; a storage failure or thrown exception is not modelled.
- URL strings, URL encoding and the `yyyy-MM-01` format of the rollover link: links are `FeedLink` values with the parsed date and the marker.
- The texts of the Forbidden and not-found messages, and logging.
- Date parsing failures and `DateUtil` formats: `parseDate` is a parameter assumed to return valid dates.
- Time zones: `Calendar.getInstance()` is read as the `now` parameter in one calendar.
- `IsBlank`, `Trim` and case folding use ASCII only: `IsWhitespace` is ASCII `Character.isWhitespace`, `ToLower` folds A-Z.
- HealthIdValidator.Validate: a subject reference whose reference string is null is not modelled; references are strings.
- EncounterTypeValidator.Validate: a missing `type` child is read as no type, so it is rejected rather than throwing.
- What the individual entry validators and code validators check: they are the `run` parameter and the `CodeValidator` tags.
- CodeValidatorFactory.CodeValidatorFactory.GetValidator: HashMap iteration order is not modelled, so when several keys occur in the URL the model promises the validator of one of them, not which one.
- PatientEncounterController.Update: the update flow of the service is not part of this model; its answer is the `updated` parameter.
- ValidationResponse.EncounterValidationResponse.MergeErrors: merging a response into itself is excluded; in the source, a non-empty response merged into itself throws ConcurrentModificationException and an empty one is left unchanged.
- PatientEncounterService.EnsureCreated: a successful validation response is required to carry a feed; the source would dereference null when reading the confidentiality of a missing feed. PatientEncounterController.Create passes on the same requirement.
- `EncounterResponse` is reduced to an optional id, an optional failure type and the errors; `EncounterResponse.getErrorResult` is taken to map a precondition failure to PreconditionFailed and every other failure to UnprocessableEntity, as `EncounterController` does inline.
- `isConfidentialEncounter` is not part of this model; it is taken to mean the encounter's confidentiality is stricter than Normal, the rule `isConfidentialPatient` applies to patients.
- `FhirMessageFilter` is not part of this model; it is taken to keep messages more severe than the given level and turn each into an error of location, code and message.
- `UrlUtil.addLastUpdatedQueryParams` is not part of this model; it is taken to behave as `EncounterController.getRequestUri`.
- `EncounterService`, `PatientService`, the repositories, `WebMvcConfig` and the serialisers: their results are parameters.
- The `EncounterBundle` constructor, java.util.Calendar field setters and `ErrorResult` are helpers without their own rows.
