/**
 * Worked instances of the hour matrix and of the ordering, on concrete
 * zones and instants.
 */
module Scenarios {
  import opened Civil
  import opened Cells
  import opened Order
  import opened Matrix

  /** Asia/Tokyo: UTC+9 all year round. */
  const Tokyo: Zone := Zone(9 * SecondsPerHour, [])

  /** Europe/London in 2024: UTC+0, British Summer Time from 31 March to 27 October. */
  const London: Zone := Zone(0, [Transition(1711846800, SecondsPerHour), Transition(1729990800, 0)])

  /** A zone that moves its clocks forward one hour at 02:00 UTC on 1 January 1970. */
  const SpringForward: Zone := Zone(0, [Transition(2 * SecondsPerHour, SecondsPerHour)])

  /**
   * At 20:00 UTC on 1 January Tokyo's clocks already show 05:00 on the 2nd:
   * the reference-hour cell is marked as on a later day.
   */
  lemma TokyoEveningCell(date: int)
    requires date == 20 * SecondsPerHour
    ensures CellAt(Tokyo, date, 0, false) == "| 05+|"
  {
    TokyoLocal(date);
    ClockAt(date, 0, 20);
    ClockAt(date + 9 * SecondsPerHour, 1, 5);
    RenderedCells();
  }

  /**
   * In January and February 1970, the wall clock `dayNumber` days and `hour`
   * hours after the epoch.
   */
  lemma ClockAt(t: int, dayNumber: int, hour: int)
    requires 0 <= dayNumber < 59 && 0 <= hour < 24
    requires t == dayNumber * SecondsPerDay + hour * SecondsPerHour
    ensures HourOfDay(t) == hour
    ensures DayOfMonth(t) == if dayNumber < 31 then dayNumber + 1 else dayNumber - 30
  {
    Early1970(t);
    assert DayNumber(t) == dayNumber;
  }

  /**
   * At 20:00 UTC on 31 January Tokyo shows 05:00 on 1 February; the day of
   * the month went from 31 to 1, so the cell is marked as on an earlier day.
   */
  lemma TokyoMonthEndCell(date: int)
    requires date == 30 * SecondsPerDay + 20 * SecondsPerHour
    ensures CellAt(Tokyo, date, 0, false) == "| 05-|"
  {
    TokyoLocal(date);
    ClockAt(date, 30, 20);
    ClockAt(date + 9 * SecondsPerHour, 31, 5);
    RenderedCells();
  }

  /** Tokyo's clocks read nine hours ahead of UTC at every instant. */
  lemma TokyoLocal(t: int)
    ensures LocalSeconds(Tokyo, t) == t + 9 * SecondsPerHour
  {
    assert OffsetAt(Tokyo, t) == 9 * SecondsPerHour;
  }

  /** The cells the scenarios show, written out. */
  lemma RenderedCells()
    ensures RenderCell(true, 5, '+', false) == "| 05+|"
    ensures RenderCell(true, 5, '-', false) == "| 05-|"
    ensures RenderCell(false, 0, ' ', false) == " 00 "
    ensures RenderCell(true, 1, ' ', false) == "| 01 |"
    ensures RenderCell(false, 3, ' ', false) == " 03 "
    ensures RenderCell(false, 4, ' ', false) == " 04 "
  {
  }

  /** The slot `offset` hours from 01:00 UTC on 1 January 1970 in `SpringForward`. */
  lemma SpringForwardCell(date: int, offset: int, hour: int)
    requires date == SecondsPerHour
    requires -1 <= offset <= 2
    requires hour == if offset <= 0 then 1 + offset else 2 + offset
    ensures CellAt(SpringForward, date, offset, false) == RenderCell(offset == 0, hour, ' ', false)
  {
    var t := SlotInstant(date, offset);
    if offset <= 0 {
      OffsetBeforeTransitions(0, SpringForward.transitions, t);
    }
    assert LocalSeconds(SpringForward, t) == hour * SecondsPerHour;
    ClockAt(hour * SecondsPerHour, 0, hour);
    ClockAt(date, 0, 1);
  }

  /** Each slot is read at its own instant, so the skipped hour 02 never shows. */
  lemma SpringForwardRow(date: int)
    requires date == SecondsPerHour
    ensures HourRow(SpringForward, date, 4, false) == [" 00 ", "| 01 |", " 03 ", " 04 "]
  {
    var row := HourRow(SpringForward, date, 4, false);
    assert HalfSpan(4) == 1;
    RenderedCells();
    assert row[0] == " 00 " by { SpringForwardCell(date, -1, 0); }
    assert row[1] == "| 01 |" by { SpringForwardCell(date, 0, 1); }
    assert row[2] == " 03 " by { SpringForwardCell(date, 1, 3); }
    assert row[3] == " 04 " by { SpringForwardCell(date, 2, 4); }
  }

  /** 2024-01-01T12:00:00Z. */
  const NewYear2024Noon: int := 1704110400

  /**
   * London and Tokyo, four slots, eastern zones first, at noon UTC on
   * 1 January 2024: Tokyo (UTC+9) comes before London (UTC+0), and in each
   * row the second slot is the reference hour.
   */
  method LondonTokyoEastFirst(date: int) returns (rows: seq<TimezoneHours>)
    requires date == NewYear2024Noon
    ensures |rows| == 2
    ensures rows[0].name == "Asia/Tokyo" && rows[1].name == "Europe/London"
    ensures forall r :: r in rows ==>
      |r.hours| == 4 && forall i :: 0 <= i < 4 ==> (IsCurrentCell(r.hours[i]) <==> i == 1)
  {
    var tzs := [("Europe/London", London), ("Asia/Tokyo", Tokyo)];
    rows := CalculateTimezoneHours(tzs, date, 4, false, East, date);
    var built := BuiltRows(tzs, date, 4, false);
    assert built == [built[0], built[1]];
    TokyoAheadOfLondon(date);
    TwoRowsEastFirst(rows, built[1], built[0], date);
    assert HalfSpan(4) == 1;
    forall r | r in rows
      ensures |r.hours| == 4 && forall i :: 0 <= i < 4 ==> (IsCurrentCell(r.hours[i]) <==> i == 1)
    {
      CurrentCellOnce(r.tz, date, 4, false);
    }
  }

  /** Two rows put eastern-first come out with the one whose clock is ahead first. */
  lemma TwoRowsEastFirst(rows: seq<TimezoneHours>, ahead: TimezoneHours, behind: TimezoneHours, now: int)
    requires multiset(rows) == multiset([behind, ahead])
    requires EastFirst(rows, now)
    requires NaiveLocalTimestamp(ahead, now) > NaiveLocalTimestamp(behind, now)
    ensures rows == [ahead, behind]
  {
    assert |rows| == |multiset(rows)| == 2;
    assert rows == [rows[0], rows[1]];
    assert multiset{rows[0], rows[1]} == multiset{behind, ahead};
    assert NaiveLocalTimestamp(rows[0], now) >= NaiveLocalTimestamp(rows[1], now);
    assert rows[0] == ahead;
  }

  /** On 1 January 2024 London keeps UTC while Tokyo is nine hours ahead. */
  lemma TokyoAheadOfLondon(now: int)
    requires now == NewYear2024Noon
    ensures OffsetAt(London, now) == 0 && OffsetAt(Tokyo, now) == 9 * SecondsPerHour
  {
    OffsetBeforeTransitions(0, London.transitions, now);
  }
}
