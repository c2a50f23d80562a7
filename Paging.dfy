/**
 * Marker-based pagination of the encounter feeds, shared by CatchmentEncounterController
 * and the older EncounterController: storage hands back rows already ordered by arrival,
 * a page is sliced from them at a marker, and the next link is either the last row's
 * marker or, for an empty page of a past year, the first day of the following month.
 * The two controllers differ only when the marker is not among the rows (MarkerMiss).
 */
module Paging {
  import opened Domain
  import opened Calendars

  /** What a marker that is not among the fetched rows yields. */
  datatype MarkerMiss =
    | EmptyPage   // CatchmentEncounterController
    | FirstPage   // EncounterController

  /** A feed link, reduced to its updatedSince and lastMarker query parameters. */
  datatype FeedLink = FeedLink(updatedSince: Option<Date>, lastMarker: Option<string>)

  /** The request link of a page: the date when there is one, the marker when it is not blank. */
  function RequestLink(requestedDate: Option<Date>, lastMarker: Option<string>): (link: FeedLink)
    ensures link.updatedSince == requestedDate
    ensures link.lastMarker.Some? <==> !IsBlank(lastMarker)
    ensures link.lastMarker.Some? ==> link.lastMarker == lastMarker
  {
    FeedLink(requestedDate, if IsBlank(lastMarker) then None else lastMarker)
  }

  /** No two rows share a key (event ids are time-based UUIDs, encounter ids random UUIDs). */
  ghost predicate UniqueKeys<T>(rows: seq<T>, key: T -> string)
  {
    forall i, j :: 0 <= i < j < |rows| ==> key(rows[i]) != key(rows[j])
  }

  /** Index of the first row whose key is the marker, or -1. */
  function MarkerIndex<T>(rows: seq<T>, key: T -> string, marker: string): (i: int)
    ensures -1 <= i < |rows|
  {
    if |rows| == 0 then -1
    else if key(rows[0]) == marker then 0
    else
      var k := MarkerIndex(rows[1..], key, marker);
      if k < 0 then -1 else k + 1
  }

  /** MarkerIndex finds the first row carrying the marker, and -1 only when no row does. */
  lemma {:induction false} MarkerIndexIsFirst<T>(rows: seq<T>, key: T -> string, marker: string)
    ensures var i := MarkerIndex(rows, key, marker);
            && (0 <= i ==> key(rows[i]) == marker)
            && forall j :: 0 <= j < |rows| && (i < 0 || j < i) ==> key(rows[j]) != marker
  {
    if |rows| > 0 && key(rows[0]) != marker {
      MarkerIndexIsFirst(rows[1..], key, marker);
      assert forall j :: 1 <= j < |rows| ==> rows[j] == rows[1..][j - 1];
    }
  }

  /** identifyLastMarker: a linear scan that returns at the first match. */
  method IdentifyLastMarker<T>(lastMarker: string, rows: seq<T>, key: T -> string) returns (idx: int)
    ensures idx == MarkerIndex(rows, key, lastMarker)
  {
    MarkerIndexIsFirst(rows, key, lastMarker);
    idx := 0;
    while idx < |rows|
      invariant 0 <= idx <= |rows|
      invariant forall j :: 0 <= j < idx ==> key(rows[j]) != lastMarker
    {
      if key(rows[idx]) == lastMarker {
        return;
      }
      idx := idx + 1;
    }
    idx := -1;
  }

  /** The first n rows, or all of them when there are fewer (list.subList(0, limit)). */
  function Take<T>(s: seq<T>, n: nat): seq<T>
  {
    if |s| > n then s[..n] else s
  }

  /** The page filterAfterMarker yields. */
  function PageAfterMarker<T>(rows: seq<T>, key: T -> string, lastMarker: Option<string>,
                              limit: nat, onMiss: MarkerMiss): seq<T>
  {
    if IsBlank(lastMarker) then Take(rows, limit)
    else
      var i := MarkerIndex(rows, key, lastMarker.value);
      if 0 <= i then Take(rows[i + 1..], limit)
      else if onMiss == FirstPage then Take(rows, limit)
      else []
  }

  /** filterAfterMarker, slicing the rows at the index identifyLastMarker finds. */
  method FilterAfterMarker<T>(rows: seq<T>, key: T -> string, lastMarker: Option<string>,
                              limit: nat, onMiss: MarkerMiss) returns (page: seq<T>)
    ensures page == PageAfterMarker(rows, key, lastMarker, limit, onMiss)
  {
    if IsBlank(lastMarker) {
      page := Take(rows, limit);
      return;
    }
    var lastMarkerIndex := IdentifyLastMarker(lastMarker.value, rows, key);
    if lastMarkerIndex >= 0 && lastMarkerIndex + 1 <= |rows| {
      var remaining := rows[lastMarkerIndex + 1..];
      page := Take(remaining, limit);
    } else if onMiss == FirstPage {
      page := Take(rows, limit);
    } else {
      page := [];
    }
  }

  /** A page never holds more than `limit` rows. */
  lemma PageWithinLimit<T>(rows: seq<T>, key: T -> string, lastMarker: Option<string>,
                           limit: nat, onMiss: MarkerMiss)
    ensures |PageAfterMarker(rows, key, lastMarker, limit, onMiss)| <= limit
  {
  }

  /** Without a marker the page is the first min(limit, n) rows. */
  lemma BlankMarkerPage<T>(rows: seq<T>, key: T -> string, lastMarker: Option<string>,
                           limit: nat, onMiss: MarkerMiss)
    requires IsBlank(lastMarker)
    ensures PageAfterMarker(rows, key, lastMarker, limit, onMiss) == rows[..Min(limit, |rows|)]
  {
  }

  /** A marker found at index i yields rows i+1 .. min(i+1+limit, n). */
  lemma FoundMarkerPage<T>(rows: seq<T>, key: T -> string, i: nat, limit: nat, onMiss: MarkerMiss)
    requires i < |rows|
    requires forall j :: 0 <= j < i ==> key(rows[j]) != key(rows[i])
    requires !IsBlank(Some(key(rows[i])))
    ensures PageAfterMarker(rows, key, Some(key(rows[i])), limit, onMiss)
            == rows[i + 1..Min(i + 1 + limit, |rows|)]
  {
    MarkerIndexIsFirst(rows, key, key(rows[i]));
  }

  /** A marker absent from the rows: an empty page, or the first page for EncounterController. */
  lemma MissingMarkerPage<T>(rows: seq<T>, key: T -> string, marker: string, limit: nat, onMiss: MarkerMiss)
    requires !IsBlank(Some(marker))
    requires forall j :: 0 <= j < |rows| ==> key(rows[j]) != marker
    ensures PageAfterMarker(rows, key, Some(marker), limit, onMiss)
            == if onMiss == FirstPage then PageAfterMarker(rows, key, None, limit, onMiss) else []
  {
    MarkerIndexIsFirst(rows, key, marker);
  }

  /**
   * Pages do not overlap and skip nothing: resuming at the key of row e-1 serves the
   * rows from e on, when keys are unique.
   */
  lemma ResumeAfterRow<T>(rows: seq<T>, key: T -> string, e: nat, limit: nat, onMiss: MarkerMiss)
    requires UniqueKeys(rows, key)
    requires 0 < e <= |rows|
    requires !IsBlank(Some(key(rows[e - 1])))
    ensures PageAfterMarker(rows, key, Some(key(rows[e - 1])), limit, onMiss)
            == rows[e..Min(e + limit, |rows|)]
  {
    FoundMarkerPage(rows, key, e - 1, limit, onMiss);
  }

  /**
   * Over a fixed window of rows, the first page followed by the page after its last key
   * is exactly a prefix of the rows.
   */
  lemma FirstTwoPagesArePrefix<T>(rows: seq<T>, key: T -> string, limit: nat, onMiss: MarkerMiss)
    requires UniqueKeys(rows, key)
    requires 0 < limit && 0 < |rows|
    requires !IsBlank(Some(key(rows[Min(limit, |rows|) - 1])))
    ensures var first := PageAfterMarker(rows, key, None, limit, onMiss);
            var second := PageAfterMarker(rows, key, Some(key(first[|first| - 1])), limit, onMiss);
            |first| + |second| <= |rows| && first + second == rows[..|first| + |second|]
  {
    var first := PageAfterMarker(rows, key, None, limit, onMiss);
    assert first == rows[..Min(limit, |rows|)];
    ResumeAfterRow(rows, key, |first|, limit, onMiss);
  }

  /**
   * The controller test's window: 40 rows with unique keys and limit 20. The first page is
   * rows 0..19 and ends at row 19; resuming at row 21 gives 18 rows; resuming at the last
   * row gives none.
   */
  lemma FortyRowWindow<T>(rows: seq<T>, key: T -> string, onMiss: MarkerMiss)
    requires |rows| == 40 && UniqueKeys(rows, key)
    requires !IsBlank(Some(key(rows[21]))) && !IsBlank(Some(key(rows[39])))
    ensures PageAfterMarker(rows, key, None, 20, onMiss) == rows[..20]
    ensures |PageAfterMarker(rows, key, Some(key(rows[21])), 20, onMiss)| == 18
    ensures PageAfterMarker(rows, key, Some(key(rows[39])), 20, onMiss) == []
  {
    ResumeAfterRow(rows, key, 22, 20, onMiss);
    ResumeAfterRow(rows, key, 40, 20, onMiss);
  }

  /** The first instant of the month with the given MonthIndex. */
  function MonthStart(k: int): Date
  {
    Date(k / 12, k % 12 + 1, 1, 0, 0, 0, 0)
  }

  lemma MonthStartIndex(k: int)
    ensures ValidDate(MonthStart(k)) && MonthIndex(MonthStart(k)) == k
  {
  }

  /** The date a rollover link points at: day 1 of the month after d. */
  function FirstOfNextMonth(d: Date): Date
  {
    MonthStart(MonthIndex(d) + 1)
  }

  /** The rollover date is one month on, on day 1 at midnight, and strictly later. */
  lemma FirstOfNextMonthAdvances(d: Date)
    requires ValidDate(d)
    ensures ValidDate(FirstOfNextMonth(d))
    ensures MonthIndex(FirstOfNextMonth(d)) == MonthIndex(d) + 1
    ensures d.month < 12 ==> FirstOfNextMonth(d) == Date(d.year, d.month + 1, 1, 0, 0, 0, 0)
    ensures d.month == 12 ==> FirstOfNextMonth(d) == Date(d.year + 1, 1, 1, 0, 0, 0, 0)
    ensures Before(d, FirstOfNextMonth(d))
  {
    MonthStartIndex(MonthIndex(d) + 1);
  }

  /**
   * rollingFeedUrl: no link for the current or a future year; for a past year, a link
   * whose updatedSince is day 1 of the following month and which carries no marker.
   */
  method RollingFeedUrl(forDate: Date, now: Date) returns (next: Option<FeedLink>)
    requires ValidDate(forDate)
    ensures next.Some? <==> forDate.year < now.year
    ensures next.Some? ==> next.value == FeedLink(Some(FirstOfNextMonth(forDate)), None)
  {
    var requestedTime := new Calendar.FromDate(forDate);
    var requestedYear := requestedTime.year;
    var currentYear := now.year;
    if currentYear == requestedYear {
      return None;
    }
    if currentYear < requestedYear {
      return None;
    }
    requestedTime.AddMonth();
    var nextApplicableDate := Date(requestedTime.year, requestedTime.month + 1, 1, 0, 0, 0, 0);
    MonthStartIndex(MonthIndex(forDate) + 1);
    next := Some(FeedLink(Some(nextApplicableDate), None));
  }

  /** The updatedSince reached after following n rollover links from d. */
  function RolledForward(d: Date, n: nat): Date
  {
    if n == 0 then d else FirstOfNextMonth(RolledForward(d, n - 1))
  }

  lemma {:induction false} RolledForwardIndex(d: Date, n: nat)
    requires ValidDate(d)
    ensures ValidDate(RolledForward(d, n))
    ensures MonthIndex(RolledForward(d, n)) == MonthIndex(d) + n
  {
    if n > 0 {
      RolledForwardIndex(d, n - 1);
      MonthStartIndex(MonthIndex(RolledForward(d, n - 1)) + 1);
    }
  }

  /**
   * A sparse catchment is walked month by month: after n rollovers from a date of a past
   * year the feed still rolls over exactly while it has not reached January of the
   * current year.
   */
  lemma RolloverWalkStopsAtCurrentYear(d: Date, now: Date, n: nat)
    requires ValidDate(d) && d.year < now.year
    ensures RolledForward(d, n).year < now.year <==> MonthIndex(d) + n < now.year * 12
  {
    RolledForwardIndex(d, n);
  }

  /** The start of the month `now` falls in. */
  function StartOfMonth(now: Date): Date
  {
    Date(now.year, now.month, 1, 0, 0, 0, 0)
  }

  /** The date a catchment feed request reads from. */
  function CatchmentRequestDate(updatedSince: Option<string>, now: Date, parseDate: string -> Date): Date
  {
    if IsBlank(updatedSince) then StartOfMonth(now) else parseDate(updatedSince.value)
  }

  /** getRequestedDate: no date at all for a blank updatedSince (the patient feeds). */
  function RequestedDate(updatedSince: Option<string>, parseDate: string -> Date): (d: Option<Date>)
    ensures d.None? <==> IsBlank(updatedSince)
    ensures d.Some? ==> d.value == parseDate(updatedSince.value)
  {
    if IsBlank(updatedSince) then None else Some(parseDate(updatedSince.value))
  }

  /**
   * getRequestedDateForCatchment: a blank updatedSince means day 1 of the current month
   * at 00:00:00.000, a valid date that is not after `now`; otherwise the parsed date.
   */
  method GetRequestedDateForCatchment(updatedSince: Option<string>, now: Date, parseDate: string -> Date)
    returns (d: Date)
    requires ValidDate(now)
    ensures d == CatchmentRequestDate(updatedSince, now, parseDate)
    ensures IsBlank(updatedSince) ==>
              d.year == now.year && d.month == now.month && d.day == 1 && TimeOfDay(d) == 0 &&
              ValidDate(d) && !Before(now, d)
  {
    if IsBlank(updatedSince) {
      var calendar := new Calendar.FromDate(now);
      calendar.SetDayOfMonth(1);
      calendar.SetHourOfDay(0);
      calendar.SetMinute(0);
      calendar.SetSecond(0);
      calendar.SetMillisecond(0);
      return calendar.Time();
    }
    d := parseDate(updatedSince.value);
  }

  /** The next link getNextResultURL computes for a page. */
  function NextLink<T>(page: seq<T>, key: T -> string, receivedAt: T -> Date,
                       requestedDate: Date, now: Date): Option<FeedLink>
  {
    if |page| == 0 then
      (if requestedDate.year < now.year then Some(FeedLink(Some(FirstOfNextMonth(requestedDate)), None))
       else None)
    else
      Some(FeedLink(Some(receivedAt(page[|page| - 1])), Some(key(page[|page| - 1]))))
  }

  /** getNextResultURL: the last row's date and key, or the rollover link for an empty page. */
  method GetNextResultUrl<T>(requestResults: seq<T>, key: T -> string, receivedAt: T -> Date,
                             requestedDate: Date, now: Date) returns (next: Option<FeedLink>)
    requires ValidDate(requestedDate)
    ensures next == NextLink(requestResults, key, receivedAt, requestedDate, now)
  {
    var size := |requestResults|;
    if size <= 0 {
      next := RollingFeedUrl(requestedDate, now);
      return;
    }
    var last := requestResults[size - 1];
    next := Some(FeedLink(Some(receivedAt(last)), Some(key(last))));
  }

  /**
   * Following the next link of a non-empty page resumes right after it: with the same
   * rows and unique keys, the page served for that link's marker starts at the row
   * after the page's last one.
   */
  lemma NextLinkResumes<T>(rows: seq<T>, key: T -> string, receivedAt: T -> Date,
                           requestedDate: Date, now: Date, s: nat, e: nat, limit: nat, onMiss: MarkerMiss)
    requires UniqueKeys(rows, key)
    requires s < e <= |rows|
    requires !IsBlank(Some(key(rows[e - 1])))
    ensures var link := NextLink(rows[s..e], key, receivedAt, requestedDate, now);
            && link.Some? && link.value.lastMarker.Some?
            && link.value.updatedSince == Some(receivedAt(rows[e - 1]))
            && PageAfterMarker(rows, key, link.value.lastMarker, limit, onMiss) == rows[e..Min(e + limit, |rows|)]
  {
    assert rows[s..e][e - s - 1] == rows[e - 1];
    ResumeAfterRow(rows, key, e, limit, onMiss);
  }

  /**
   * Following the next link of a non-empty page across requests. The link asks storage
   * again, from the last row's arrival time. Storage is assumed to answer with rows of unique
   * keys that hold the page's last row once, with the later rows after it. Under that
   * assumption the next page is the first `limit` of those later rows, whatever rows arrived
   * at the same time before it.
   */
  lemma NextRequestResumes<T>(catchment: string, storage: (string, Date, nat) -> seq<T>, page: seq<T>,
                              key: T -> string, receivedAt: T -> Date, requestedDate: Date, now: Date,
                              limit: nat, onMiss: MarkerMiss, earlier: seq<T>, later: seq<T>)
    requires |page| > 0 && !IsBlank(Some(key(page[|page| - 1])))
    requires storage(catchment, receivedAt(page[|page| - 1]), 2 * limit) == earlier + [page[|page| - 1]] + later
    requires UniqueKeys(earlier + [page[|page| - 1]] + later, key)
    ensures var link := NextLink(page, key, receivedAt, requestedDate, now);
            && link.Some? && link.value.updatedSince.Some?
            && PageAfterMarker(storage(catchment, link.value.updatedSince.value, 2 * limit), key,
                               link.value.lastMarker, limit, onMiss)
               == later[..Min(limit, |later|)]
  {
    var last := page[|page| - 1];
    var rows := earlier + [last] + later;
    var e := |earlier| + 1;
    assert rows[e - 1] == last;
    ResumeAfterRow(rows, key, e, limit, onMiss);
    assert rows[e..Min(e + limit, |rows|)] == later[..Min(limit, |later|)];
  }

  /** An empty page rolls over only for a past year, and then one month forward. */
  lemma EmptyPageRollover<T>(key: T -> string, receivedAt: T -> Date, requestedDate: Date, now: Date)
    requires ValidDate(requestedDate)
    ensures var link := NextLink([], key, receivedAt, requestedDate, now);
            && (link.Some? <==> requestedDate.year < now.year)
            && (link.Some? ==> link.value.lastMarker.None? && link.value.updatedSince.Some? &&
                               MonthIndex(link.value.updatedSince.value) == MonthIndex(requestedDate) + 1 &&
                               link.value.updatedSince.value.day == 1)
  {
    FirstOfNextMonthAdvances(requestedDate);
  }
}
