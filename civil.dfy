/**
 * Instants, the Gregorian calendar and timezones.
 *
 * An instant is a whole number of seconds since 1970-01-01T00:00:00Z.  A
 * timezone is the table of UTC offsets that the IANA database gives for it:
 * an initial offset and the transitions (daylight saving, law changes) at
 * which the offset changes.  Local wall-clock time is the instant shifted
 * by the offset in force at that instant, read back on the UTC calendar.
 */
module Civil {

  const SecondsPerHour: int := 3600
  const SecondsPerDay: int := 86400
  /** Days in a 400-year Gregorian cycle (97 leap years). */
  const DaysPer400Years: int := 146097

  // ---------------------------------------------------------------------
  // Time of day and calendar date of an instant read on the UTC calendar

  /** Hour of the day (0..23), as `Timelike::hour` gives it. */
  function HourOfDay(t: int): (h: int)
    ensures 0 <= h < 24
  {
    (t % SecondsPerDay) / SecondsPerHour
  }

  /** The day number (days since 1970-01-01, floored) of an instant. */
  function DayNumber(t: int): int
  {
    t / SecondsPerDay
  }

  predicate IsLeapYear(y: int)
  {
    (y % 4 == 0 && y % 100 != 0) || y % 400 == 0
  }

  function DaysInYear(y: int): (n: int)
    ensures n == 365 || n == 366
  {
    if IsLeapYear(y) then 366 else 365
  }

  /**
   * The year and the zero-based day of that year reached by counting `d`
   * days forward from January 1st of `y`.
   */
  function YearDayFrom(y: int, d: nat): (r: (int, nat))
    ensures y <= r.0
    ensures r.1 < DaysInYear(r.0)
    decreases d
  {
    if d < DaysInYear(y) then (y, d) else YearDayFrom(y + 1, d - DaysInYear(y))
  }

  /**
   * The year and zero-based day of the year of day number `day`.  Every
   * 400 consecutive Gregorian years hold exactly 146097 days, so whole
   * cycles are taken off first; the remainder is never negative.
   */
  function YearDay(day: int): (r: (int, nat))
    ensures r.1 < DaysInYear(r.0)
  {
    YearDayFrom(1970 + 400 * (day / DaysPer400Years), day % DaysPer400Years)
  }

  /** Days of the year before the first of month `m` (1..12). */
  function DaysBeforeMonth(m: int, leap: bool): (n: int)
    requires 1 <= m <= 12
    ensures 0 <= n <= 335
  {
    var common :=
      if m == 1 then 0 else if m == 2 then 31 else if m == 3 then 59
      else if m == 4 then 90 else if m == 5 then 120 else if m == 6 then 151
      else if m == 7 then 181 else if m == 8 then 212 else if m == 9 then 243
      else if m == 10 then 273 else if m == 11 then 304 else 334;
    if leap && m > 2 then common + 1 else common
  }

  /** The month (1..12) holding zero-based day `doy` of a year. */
  function MonthOf(doy: nat, leap: bool): (m: int)
    requires doy < if leap then 366 else 365
    ensures 1 <= m <= 12
    ensures DaysBeforeMonth(m, leap) <= doy
    ensures m < 12 ==> doy < DaysBeforeMonth(m + 1, leap)
  {
    if doy < DaysBeforeMonth(2, leap) then 1
    else if doy < DaysBeforeMonth(3, leap) then 2
    else if doy < DaysBeforeMonth(4, leap) then 3
    else if doy < DaysBeforeMonth(5, leap) then 4
    else if doy < DaysBeforeMonth(6, leap) then 5
    else if doy < DaysBeforeMonth(7, leap) then 6
    else if doy < DaysBeforeMonth(8, leap) then 7
    else if doy < DaysBeforeMonth(9, leap) then 8
    else if doy < DaysBeforeMonth(10, leap) then 9
    else if doy < DaysBeforeMonth(11, leap) then 10
    else if doy < DaysBeforeMonth(12, leap) then 11
    else 12
  }

  /** Day of the month (1..31) of day number `day`. */
  function DayOfMonthOfDay(day: int): (d: int)
    ensures 1 <= d <= 31
  {
    var yd := YearDay(day);
    var leap := IsLeapYear(yd.0);
    yd.1 - DaysBeforeMonth(MonthOf(yd.1, leap), leap) + 1
  }

  /** Day of the month (1..31) of an instant, as `Datelike::day` gives it. */
  function DayOfMonth(t: int): (d: int)
    ensures 1 <= d <= 31
  {
    DayOfMonthOfDay(DayNumber(t))
  }

  /** In January and February 1970 the day of the month follows the day number. */
  lemma Early1970(t: int)
    requires 0 <= t < 59 * SecondsPerDay
    ensures DayOfMonth(t) == if t < 31 * SecondsPerDay then DayNumber(t) + 1 else DayNumber(t) - 30
  {
    var d := DayNumber(t);
    assert YearDay(d) == (1970, d);
  }

  // ---------------------------------------------------------------------
  // Timezones

  /** From instant `at` on, the UTC offset is `offset` seconds. */
  datatype Transition = Transition(at: int, offset: int)

  /** A resolved timezone: its offset before any transition, then its transitions. */
  datatype Zone = Zone(initial: int, transitions: seq<Transition>)

  /**
   * The UTC offset in force at instant `t`: that of the last listed
   * transition that has started by `t`, or the initial offset if none has.
   */
  function OffsetIn(initial: int, ts: seq<Transition>, t: int): int
    decreases |ts|
  {
    if ts == [] then initial
    else if ts[|ts| - 1].at <= t then ts[|ts| - 1].offset
    else OffsetIn(initial, ts[..|ts| - 1], t)
  }

  /** Before every transition the initial offset holds. */
  lemma {:induction false} OffsetBeforeTransitions(initial: int, ts: seq<Transition>, t: int)
    requires forall k :: 0 <= k < |ts| ==> t < ts[k].at
    ensures OffsetIn(initial, ts, t) == initial
    decreases |ts|
  {
    if ts != [] {
      OffsetBeforeTransitions(initial, ts[..|ts| - 1], t);
    }
  }

  /** Once a transition has started, the offset is that of the last one started. */
  lemma {:induction false} OffsetOfLastStarted(initial: int, ts: seq<Transition>, t: int, k: int)
    requires 0 <= k < |ts| && ts[k].at <= t
    requires forall m :: k < m < |ts| ==> t < ts[m].at
    ensures OffsetIn(initial, ts, t) == ts[k].offset
    decreases |ts|
  {
    if k < |ts| - 1 {
      OffsetOfLastStarted(initial, ts[..|ts| - 1], t, k);
    }
  }

  function OffsetAt(z: Zone, t: int): int
  {
    OffsetIn(z.initial, z.transitions, t)
  }

  /**
   * The wall-clock reading of instant `t` in zone `z`, as seconds on the
   * UTC calendar (chrono's `with_timezone(..).naive_local().and_utc()`).
   */
  function LocalSeconds(z: Zone, t: int): (local: int)
    ensures local - t == OffsetAt(z, t)
    ensures z.transitions == [] ==> local == t + z.initial
  {
    t + OffsetAt(z, t)
  }

  /**
   * An instant together with the zone it is read in (chrono's
   * `DateTime<Tz>`): the calendar fields are those of the local wall clock
   * at that very instant.
   */
  datatype ZonedTime = ZonedTime(instant: int, zone: Zone)
  {
    function Hour(): (h: int)
      ensures 0 <= h < 24
    {
      HourOfDay(LocalSeconds(zone, instant))
    }

    function Day(): (d: int)
      ensures 1 <= d <= 31
    {
      DayOfMonth(LocalSeconds(zone, instant))
    }
  }

  /** `checked_add_signed(Duration::hours(h))`: the instant moves, the zone stays. */
  function AddHours(zt: ZonedTime, h: int): (r: ZonedTime)
    ensures r.zone == zt.zone
    ensures r.instant - zt.instant == h * SecondsPerHour
  {
    ZonedTime(zt.instant + h * SecondsPerHour, zt.zone)
  }

  /** `checked_sub_signed(Duration::hours(h))`. */
  function SubHours(zt: ZonedTime, h: int): (r: ZonedTime)
    ensures r.zone == zt.zone
    ensures zt.instant - r.instant == h * SecondsPerHour
  {
    ZonedTime(zt.instant - h * SecondsPerHour, zt.zone)
  }

  /** Subtracting `h` hours is adding `-h` hours: both branches of the shift agree. */
  lemma SubIsAddNegated(zt: ZonedTime, h: int)
    ensures SubHours(zt, h) == AddHours(zt, -h)
  {
  }
}
