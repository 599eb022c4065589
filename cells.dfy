/**
 * The hour cells of one timezone row: which instant each slot shows, how
 * the hour and the day-crossing marker are written, and how the slot at
 * offset zero (the reference hour) is set apart.
 */
module Cells {
  import opened Civil
  import opened Wrappers

  // ---------------------------------------------------------------------
  // Span arithmetic

  /** Integer division truncating toward zero, as Rust's `/` on `i32`. */
  function TruncDiv(a: int, b: int): (q: int)
    requires b > 0
    ensures a >= 0 ==> q == a / b
    ensures a < 0 ==> q == -((-a) / b)
    ensures (if a >= 0 then a - q * b else q * b - a) < b
  {
    if a >= 0 then a / b else -((-a) / b)
  }

  /** The slot that holds the reference hour: `(span / 2) - 1`. */
  function HalfSpan(span: int): (h: int)
    ensures span >= 2 ==> 0 <= h < span
    ensures span == 0 || span == 1 ==> h == -1
  {
    TruncDiv(span, 2) - 1
  }

  /** The number of slots a row holds: `0..span` is empty when `span <= 0`. */
  function SlotCount(span: int): (n: nat)
    ensures span >= 0 ==> n == span
    ensures span < 0 ==> n == 0
  {
    if span > 0 then span else 0
  }

  // ---------------------------------------------------------------------
  // Writing hours

  function DigitChar(d: int): (c: char)
    requires 0 <= d < 10
    ensures '0' <= c <= '9'
    ensures c as int - '0' as int == d
  {
    (48 + d) as char
  }

  /** `format!("{:>02}", hour)`: the hour zero-padded to two digits. */
  function TwoDigits(n: int): (s: string)
    requires 0 <= n < 100
    ensures |s| == 2 && '0' <= s[0] <= '9' && '0' <= s[1] <= '9'
    ensures (s[0] as int - '0' as int) * 10 + (s[1] as int - '0' as int) == n
  {
    [DigitChar(n / 10), DigitChar(n % 10)]
  }

  /** `format!("{h:>2}")`: a number below 100 right-aligned in two columns. */
  function RightAligned2(n: int): (s: string)
    requires 0 <= n < 100
    ensures |s| == 2 && '0' <= s[1] <= '9'
    ensures s[0] == ' ' <==> n < 10
    ensures n < 10 ==> s[1] as int - '0' as int == n
    ensures n >= 10 ==> ('0' <= s[0] <= '9' &&
      (s[0] as int - '0' as int) * 10 + (s[1] as int - '0' as int) == n)
  {
    if n < 10 then [' ', DigitChar(n)] else TwoDigits(n)
  }

  /** chrono's `hour12`: whether the hour is after noon, and the clock hour 1..12. */
  function Hour12(hour: int): (r: (bool, int))
    requires 0 <= hour < 24
    ensures 1 <= r.1 <= 12
    ensures r.0 <==> hour >= 12
    ensures r.1 % 12 == hour % 12
  {
    var h := hour % 12;
    (hour >= 12, if h == 0 then 12 else h)
  }

  /** The hour as a cell shows it: `09` in 24-hour mode, ` 9 am` in 12-hour mode. */
  function HourText(hour: int, amPm: bool): (s: string)
    requires 0 <= hour < 24
    ensures |s| == if amPm then 5 else 2
  {
    if amPm then
      var (pm, h) := Hour12(hour);
      RightAligned2(h) + (if pm then " pm" else " am")
    else TwoDigits(hour)
  }

  /**
   * The day-crossing marker: `+` when the slot's local day of the month is
   * after the reference's day of the month, `-` when before, a space otherwise.
   */
  function DaySuffix(slotDay: int, referenceDay: int): (c: char)
    ensures c == '+' <==> slotDay > referenceDay
    ensures c == '-' <==> slotDay < referenceDay
    ensures c == ' ' <==> slotDay == referenceDay
  {
    if slotDay > referenceDay then '+'
    else if slotDay < referenceDay then '-'
    else ' '
  }

  /** A cell: `| hh s|` for the reference hour, ` hh s` for every other slot. */
  function RenderCell(current: bool, hour: int, suffix: char, amPm: bool): (cell: string)
    requires 0 <= hour < 24
    ensures |cell| == (if amPm then 5 else 2) + (if current then 4 else 2)
    ensures cell[0] == '|' <==> current
  {
    if current then "| " + HourText(hour, amPm) + [suffix] + "|"
    else " " + HourText(hour, amPm) + [suffix]
  }

  // ---------------------------------------------------------------------
  // Reading a cell back

  /** What a cell says: whether it is the reference hour, the hour 0..23, the marker. */
  datatype Reading = Reading(current: bool, hour: int, suffix: char)

  function DigitValue(c: char): int
  {
    c as int - '0' as int
  }

  predicate IsDigit(c: char)
  {
    '0' <= c <= '9'
  }

  /** The hour written by `HourText`, or None when `s` is not such a text. */
  function ParseHourText(s: string, amPm: bool): (r: Option<int>)
    ensures r.Some? ==> 0 <= r.value < 24
  {
    if !amPm then
      if |s| == 2 && IsDigit(s[0]) && IsDigit(s[1])
         && DigitValue(s[0]) * 10 + DigitValue(s[1]) < 24
      then Some(DigitValue(s[0]) * 10 + DigitValue(s[1]))
      else None
    else
      if |s| == 5 && IsDigit(s[1]) && s[2] == ' ' && s[4] == 'm'
         && (s[3] == 'a' || s[3] == 'p') && (s[0] == ' ' || IsDigit(s[0]))
      then
        var h := if s[0] == ' ' then DigitValue(s[1])
                 else DigitValue(s[0]) * 10 + DigitValue(s[1]);
        if 1 <= h <= 12 && (s[0] == ' ' <==> h < 10) then Some(h % 12 + (if s[3] == 'p' then 12 else 0)) else None
      else None
  }

  /** The reading of a cell, or None when `cell` is not a cell of the given mode. */
  function ParseCell(cell: string, amPm: bool): (r: Option<Reading>)
    ensures r.Some? ==> 0 <= r.value.hour < 24
  {
    var w := if amPm then 5 else 2;
    if |cell| == w + 4 && cell[0] == '|' && cell[1] == ' ' && cell[|cell| - 1] == '|' then
      match ParseHourText(cell[2..2 + w], amPm)
      case Some(h) => Some(Reading(true, h, cell[2 + w]))
      case None => None
    else if |cell| == w + 2 && cell[0] == ' ' then
      match ParseHourText(cell[1..1 + w], amPm)
      case Some(h) => Some(Reading(false, h, cell[1 + w]))
      case None => None
    else None
  }

  lemma HourTextRoundTrip(hour: int, amPm: bool)
    requires 0 <= hour < 24
    ensures ParseHourText(HourText(hour, amPm), amPm) == Some(hour)
  {
    if amPm {
      var (pm, h) := Hour12(hour);
      var s := HourText(hour, amPm);
      var digits := RightAligned2(h);
      assert s == digits + (if pm then " pm" else " am");
      assert s[0] == digits[0] && s[1] == digits[1];
      assert s[2] == ' ' && s[4] == 'm' && (s[3] == 'p' <==> pm);
      assert (if s[0] == ' ' then DigitValue(s[1]) else DigitValue(s[0]) * 10 + DigitValue(s[1])) == h;
      assert h % 12 + (if pm then 12 else 0) == hour;
    }
  }

  /** Every cell reads back as what it was written from: the format loses nothing. */
  lemma {:induction false} CellRoundTrip(current: bool, hour: int, suffix: char, amPm: bool)
    requires 0 <= hour < 24
    ensures ParseCell(RenderCell(current, hour, suffix, amPm), amPm)
            == Some(Reading(current, hour, suffix))
  {
    var w := if amPm then 5 else 2;
    var text := HourText(hour, amPm);
    var cell := RenderCell(current, hour, suffix, amPm);
    HourTextRoundTrip(hour, amPm);
    if current {
      assert cell[2..2 + w] == text;
      assert cell[2 + w] == suffix;
    } else {
      assert cell[1..1 + w] == text;
      assert cell[1 + w] == suffix;
    }
  }

  /** The reference-hour cell at nine o'clock on the reference day. */
  lemma NineOClockCell()
    ensures RenderCell(true, 9, DaySuffix(15, 15), false) == "| 09 |"
    ensures RenderCell(true, 9, DaySuffix(15, 15), true) == "|  9 am |"
    ensures RenderCell(false, 21, DaySuffix(16, 15), true) == "  9 pm+"
    ensures RenderCell(false, 0, DaySuffix(1, 31), true) == " 12 am-"
  {
  }

  // ---------------------------------------------------------------------
  // The cells of one row

  /** The instant shown by the slot `offset` hours from the reference instant. */
  function SlotInstant(date: int, offset: int): int
  {
    date + offset * SecondsPerHour
  }

  /**
   * The cell for the slot `offset` hours from `date` in zone `z`: the local
   * hour at the shifted instant, marked against the day of the month of
   * `date` on the UTC calendar.
   */
  function CellAt(z: Zone, date: int, offset: int, amPm: bool): (cell: string)
    ensures IsCurrentCell(cell) <==> offset == 0
  {
    var local := LocalSeconds(z, SlotInstant(date, offset));
    RenderCell(offset == 0, HourOfDay(local),
               DaySuffix(DayOfMonth(local), DayOfMonth(date)), amPm)
  }

  /** The hour cells of one zone, slot `i` showing offset `i - HalfSpan(span)`. */
  function HourRow(z: Zone, date: int, span: int, amPm: bool): (cells: seq<string>)
    ensures |cells| == SlotCount(span)
  {
    seq(SlotCount(span), i => CellAt(z, date, i - HalfSpan(span), amPm))
  }

  predicate IsCurrentCell(cell: string)
  {
    |cell| > 0 && cell[0] == '|'
  }

  /**
   * What a slot of a row says: whether it is the reference hour, the local
   * hour at its instant, and the day marker against the reference's UTC day.
   */
  lemma SlotReading(z: Zone, date: int, span: int, amPm: bool, i: int)
    requires 0 <= i < SlotCount(span)
    ensures var offset := i - HalfSpan(span);
            var local := LocalSeconds(z, SlotInstant(date, offset));
            ParseCell(HourRow(z, date, span, amPm)[i], amPm)
            == Some(Reading(i == HalfSpan(span), HourOfDay(local),
                            DaySuffix(DayOfMonth(local), DayOfMonth(date))))
  {
    var offset := i - HalfSpan(span);
    var local := LocalSeconds(z, SlotInstant(date, offset));
    var hour, suffix := HourOfDay(local), DaySuffix(DayOfMonth(local), DayOfMonth(date));
    assert HourRow(z, date, span, amPm)[i] == CellAt(z, date, offset, amPm);
    CellRoundTrip(offset == 0, hour, suffix, amPm);
  }

  /**
   * Exactly one slot is set apart as the reference hour, the one at index
   * `span / 2 - 1`, and only when the span is at least 2.
   */
  lemma CurrentCellOnce(z: Zone, date: int, span: int, amPm: bool)
    ensures var cells := HourRow(z, date, span, amPm);
            forall i :: 0 <= i < |cells| ==> (IsCurrentCell(cells[i]) <==> i == HalfSpan(span))
    ensures var cells := HourRow(z, date, span, amPm);
            (exists i :: 0 <= i < |cells| && IsCurrentCell(cells[i])) <==> span >= 2
  {
    var cells := HourRow(z, date, span, amPm);
    forall i | 0 <= i < |cells|
      ensures IsCurrentCell(cells[i]) <==> i == HalfSpan(span)
    {
      assert cells[i] == CellAt(z, date, i - HalfSpan(span), amPm);
    }
    if span >= 2 {
      assert IsCurrentCell(cells[HalfSpan(span)]);
    }
  }
}
