/**
 * The part of java.util.Calendar the feed controllers use: a calendar set from a date,
 * individual fields set one at a time, and one month added with the day pinned to the
 * length of the new month.
 */
module Calendars {
  import opened Domain

  /** A calendar; `month` is zero-based, as Calendar.MONTH is. */
  class Calendar {
    var year: int
    var month: int
    var dayOfMonth: int
    var hourOfDay: int
    var minute: int
    var second: int
    var millisecond: int

    /** Calendar.getTime(): month back to 1..12. */
    function Time(): Date
      reads this
    {
      Date(year, month + 1, dayOfMonth, hourOfDay, minute, second, millisecond)
    }

    /** Calendar.getInstance() followed by setTime(d); the clock reading is the caller's. */
    constructor FromDate(d: Date)
      ensures Time() == d
    {
      year, month, dayOfMonth := d.year, d.month - 1, d.day;
      hourOfDay, minute, second, millisecond := d.hour, d.minute, d.second, d.millis;
    }

    method SetDayOfMonth(v: int)
      modifies this
      ensures Time() == old(Time()).(day := v)
    {
      dayOfMonth := v;
    }

    method SetHourOfDay(v: int)
      modifies this
      ensures Time() == old(Time()).(hour := v)
    {
      hourOfDay := v;
    }

    method SetMinute(v: int)
      modifies this
      ensures Time() == old(Time()).(minute := v)
    {
      minute := v;
    }

    method SetSecond(v: int)
      modifies this
      ensures Time() == old(Time()).(second := v)
    {
      second := v;
    }

    method SetMillisecond(v: int)
      modifies this
      ensures Time() == old(Time()).(millis := v)
    {
      millisecond := v;
    }

    /** add(MONTH, 1): December rolls into January of the next year; the day is pinned. */
    method AddMonth()
      requires 0 <= month < 12
      modifies this
      ensures 0 <= month < 12
      ensures MonthIndex(Time()) == MonthIndex(old(Time())) + 1
      ensures dayOfMonth == Min(old(dayOfMonth), DaysInMonth(year, month + 1))
      ensures hourOfDay == old(hourOfDay) && minute == old(minute)
      ensures second == old(second) && millisecond == old(millisecond)
    {
      if month == 11 {
        year, month := year + 1, 0;
      } else {
        month := month + 1;
      }
      dayOfMonth := Min(dayOfMonth, DaysInMonth(year, month + 1));
    }
  }

  function Min(a: int, b: int): int
  {
    if a <= b then a else b
  }
}
