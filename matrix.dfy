/**
 * The hour matrix: one row of hour cells per resolved timezone, then the
 * rows put in the requested order.
 */
module Matrix {
  import opened Civil
  import opened Ordering
  import opened Cells
  import opened Order

  /** The row built for one requested (name, zone) entry. */
  function BuiltRow(entry: (string, Zone), date: int, span: int, amPm: bool): (row: TimezoneHours)
    ensures row.name == entry.0 && row.tz == entry.1
    ensures |row.hours| == SlotCount(span)
    ensures forall i :: 0 <= i < |row.hours| ==> (IsCurrentCell(row.hours[i]) <==> i == HalfSpan(span))
  {
    CurrentCellOnce(entry.1, date, span, amPm);
    TimezoneHours(entry.0, HourRow(entry.1, date, span, amPm), entry.1)
  }

  /** The rows in the order the requested entries are visited. */
  function BuiltRows(tzs: seq<(string, Zone)>, date: int, span: int, amPm: bool): (rows: seq<TimezoneHours>)
    ensures |rows| == |tzs|
  {
    seq(|tzs|, j requires 0 <= j < |tzs| => BuiltRow(tzs[j], date, span, amPm))
  }

  /**
   * The body of the inner loop of `calculate_timezone_hours`: the cell of
   * the slot `offset` hours from `date` in zone `tz`.
   */
  method HourCell(tz: Zone, date: int, offset: int, amPm: bool) returns (cell: string)
    ensures cell == CellAt(tz, date, offset, amPm)
  {
    var utcDay := DayOfMonth(date);
    var converted := ZonedTime(date, tz);
    var shifted := AddHours(converted, offset);
    if offset < 0 {
      shifted := SubHours(converted, -offset);
    }
    assert shifted == ZonedTime(SlotInstant(date, offset), tz);
    var sfx := match Compare(shifted.Day(), utcDay)
      case Greater => '+'
      case Less => '-'
      case Equal => ' ';
    var hour := FormatHour(shifted.Hour(), amPm);
    if offset == 0 {
      cell := "| " + hour + [sfx] + "|";
    } else {
      cell := " " + hour + [sfx];
    }
    assert sfx == DaySuffix(shifted.Day(), utcDay);
  }

  /** The hour text of a cell: zero-padded, replaced by `h am` / `h pm` in 12-hour mode. */
  method FormatHour(hour24: int, amPm: bool) returns (hour: string)
    requires 0 <= hour24 < 24
    ensures hour == HourText(hour24, amPm)
  {
    hour := TwoDigits(hour24);
    if amPm {
      var (pm, h) := Hour12(hour24);
      if pm {
        hour := RightAligned2(h) + " pm";
      } else {
        hour := RightAligned2(h) + " am";
      }
    }
  }

  /**
   * The inner loop of `calculate_timezone_hours`: the cells of one zone,
   * slot `i` showing the hour `i - halfSpan` hours from `date`.
   */
  method BuildHours(tz: Zone, date: int, span: int, halfSpan: int, amPm: bool) returns (hours: seq<string>)
    requires halfSpan == HalfSpan(span)
    ensures hours == HourRow(tz, date, span, amPm)
  {
    hours := [];
    var i := 0;
    while i < span
      invariant 0 <= i <= SlotCount(span)
      invariant |hours| == i
      invariant forall k :: 0 <= k < i ==> hours[k] == CellAt(tz, date, k - halfSpan, amPm)
    {
      var cell := HourCell(tz, date, i - halfSpan, amPm);
      hours := hours + [cell];
      i := i + 1;
    }
    assert i == SlotCount(span);
  }

  /**
   * `calculate_timezone_hours`.  `tzs` lists the entries of the requested
   * map in the order the map yields them; `date` is the reference instant
   * the cells are built around; `now` is the instant the sort keys are
   * read at.
   */
  method CalculateTimezoneHours(tzs: seq<(string, Zone)>, date: int, span: int, amPm: bool,
                                sortOrder: SortOrder, now: int)
    returns (result: seq<TimezoneHours>)
    ensures multiset(result) == multiset(BuiltRows(tzs, date, span, amPm))
    ensures |result| == |tzs|
    ensures forall r :: r in result ==> r.hours == HourRow(r.tz, date, span, amPm)
    ensures sortOrder == SortOrder.None ==> result == BuiltRows(tzs, date, span, amPm)
    ensures sortOrder == East ==> EastFirst(result, now)
    ensures sortOrder == West ==> WestFirst(result, now)
  {
    var halfSpan := TruncDiv(span, 2) - 1;
    assert halfSpan == HalfSpan(span);
    var tzhours: seq<TimezoneHours> := [];
    var j := 0;
    while j < |tzs|
      invariant 0 <= j <= |tzs|
      invariant |tzhours| == j
      invariant forall k :: 0 <= k < j ==> tzhours[k] == BuiltRow(tzs[k], date, span, amPm)
    {
      var (tzStr, tz) := tzs[j];
      var hours := BuildHours(tz, date, span, halfSpan, amPm);
      tzhours := tzhours + [TimezoneHours(tzStr, hours, tz)];
      j := j + 1;
    }
    assert tzhours == BuiltRows(tzs, date, span, amPm);
    result := Arrange(tzhours, sortOrder, now);
    assert |result| == |multiset(result)| == |tzhours|;
    forall r | r in result
      ensures r.hours == HourRow(r.tz, date, span, amPm)
    {
      assert r in multiset(tzhours);
    }
  }
}
