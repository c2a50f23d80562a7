/**
 * Values shared by the encounter controllers, the access filter and the services:
 * confidentiality levels, calendar dates, stored encounters and their feed events,
 * and the mutable encounter bundle that the create flow stamps.
 */
module Domain {

  datatype Option<+T> = None | Some(value: T)

  /** Confidentiality levels, from least to most sensitive. */
  datatype Confidentiality = Unrestricted | Low | Moderate | Normal | Restricted | VeryRestricted

  /** Position of a level on the ordered scale. */
  function Level(c: Confidentiality): nat
  {
    match c
    case Unrestricted => 0
    case Low => 1
    case Moderate => 2
    case Normal => 3
    case Restricted => 4
    case VeryRestricted => 5
  }

  /** The single comparison every filtering site uses. */
  predicate AtMost(a: Confidentiality, b: Confidentiality)
  {
    Level(a) <= Level(b)
  }

  /** A level stricter than Normal. */
  predicate IsConfidential(c: Confidentiality)
  {
    !AtMost(c, Normal)
  }

  /** AtMost is a total order on the six levels. */
  lemma AtMostIsTotalOrder(a: Confidentiality, b: Confidentiality, c: Confidentiality)
    ensures AtMost(a, a)
    ensures AtMost(a, b) && AtMost(b, a) ==> a == b
    ensures AtMost(a, b) && AtMost(b, c) ==> AtMost(a, c)
    ensures AtMost(a, b) || AtMost(b, a)
  {
  }

  /** Exactly the two top levels are confidential. */
  lemma ConfidentialLevels(c: Confidentiality)
    ensures IsConfidential(c) <==> (c == Restricted || c == VeryRestricted)
  {
  }

  /** A point in time as java.util.Calendar reports it; month runs 1..12 here. */
  datatype Date = Date(year: int, month: int, day: int, hour: int, minute: int, second: int, millis: int)

  predicate ValidDate(d: Date)
  {
    && 1 <= d.month <= 12
    && 1 <= d.day <= DaysInMonth(d.year, d.month)
    && 0 <= d.hour < 24 && 0 <= d.minute < 60 && 0 <= d.second < 60 && 0 <= d.millis < 1000
  }

  predicate IsLeapYear(y: int)
  {
    (y % 4 == 0 && y % 100 != 0) || y % 400 == 0
  }

  function DaysInMonth(y: int, m: int): int
  {
    if m == 2 then (if IsLeapYear(y) then 29 else 28)
    else if m == 4 || m == 6 || m == 9 || m == 11 then 30
    else 31
  }

  /** Months elapsed since month 1 of year 0: consecutive months differ by one. */
  function MonthIndex(d: Date): int
  {
    d.year * 12 + (d.month - 1)
  }

  /** Chronological order of two dates. */
  predicate Before(a: Date, b: Date)
  {
    || a.year < b.year
    || (a.year == b.year && a.month < b.month)
    || (a.year == b.year && a.month == b.month && a.day < b.day)
    || (a.year == b.year && a.month == b.month && a.day == b.day && TimeOfDay(a) < TimeOfDay(b))
  }

  function TimeOfDay(d: Date): int
  {
    ((d.hour * 60 + d.minute) * 60 + d.second) * 1000 + d.millis
  }

  /** Character.isWhitespace restricted to ASCII. */
  predicate IsWhitespace(c: char)
  {
    c == ' ' || c == '\t' || c == '\n' || c == '\r' || c == '\U{000B}' || c == '\U{000C}'
    || c == '\U{001C}' || c == '\U{001D}' || c == '\U{001E}' || c == '\U{001F}'
  }

  /** StringUtils.isBlank: absent, empty or whitespace only. */
  predicate IsBlank(s: Option<string>)
  {
    s.None? || forall i :: 0 <= i < |s.value| ==> IsWhitespace(s.value[i])
  }

  /** The facility and provider on whose behalf a bundle is created or updated. */
  datatype Requester = Requester(facilityId: Option<string>, providerId: Option<string>)

  /** A stored encounter as the feeds read it back from storage. */
  datatype Encounter = Encounter(
    encounterId: string,
    healthId: string,
    receivedDate: Date,
    patientConfidentiality: Confidentiality,
    encounterConfidentiality: Confidentiality)

  /**
   * An entry of the catchment or patient feed: its time-based id, its arrival time
   * (`receivedAt`, what the event's getEncounterReceivedAt() returns) and its encounter.
   */
  datatype EncounterEvent = EncounterEvent(id: string, receivedAt: Date, encounter: Encounter)

  /** The bundle posted by a client, stamped in place by the controller and by the create flow. */
  class EncounterBundle {
    var content: string
    var healthId: Option<string>
    var encounterId: Option<string>
    var patientConfidentiality: Option<Confidentiality>
    var encounterConfidentiality: Option<Confidentiality>
    var receivedDate: Option<Date>
    var updatedDate: Option<Date>
    var createdBy: Option<Requester>
    var updatedBy: Option<Requester>

    /** A freshly deserialised bundle: only its content is set. */
    constructor (content: string)
      ensures this.content == content
      ensures healthId == None && encounterId == None
      ensures patientConfidentiality == None && encounterConfidentiality == None
      ensures receivedDate == None && updatedDate == None
      ensures createdBy == None && updatedBy == None
    {
      this.content := content;
      healthId, encounterId := None, None;
      patientConfidentiality, encounterConfidentiality := None, None;
      receivedDate, updatedDate := None, None;
      createdBy, updatedBy := None, None;
    }
  }
}
