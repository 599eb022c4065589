# tzbuddy core, modelled in Dafny

tzbuddy prints, for a list of IANA timezones, a row of wall-clock hours
around a reference instant: one cell per hour slot, the reference hour set
apart with `|`, and a marker telling whether the slot falls on a later
(`+`), earlier (`-`) or the same (` `) day of the month as the reference
instant on the UTC calendar. Rows can be left in the order the zone map
yields them (a `HashMap`, whose iteration order is unspecified), or sorted
eastern-first or western-first by the zones' current offset. It also lists the known zone names grouped by region, and filters
the zone names given on the command line down to the ones that parse.

The model covers the library module `src/lib.rs`:

- `civil.dfy` (`Civil`): instants are whole seconds since the Unix epoch. A
  zone is an initial UTC offset plus a list of offset transitions (the
  entries a timezone database holds for it); the offset at an instant is
  the one of the last transition already started. Local wall-clock seconds
  are the instant plus that offset, and the hour of the day and the day of
  the month are read from them with the proleptic Gregorian calendar.
  `ZonedTime` is a `DateTime<Tz>`: adding or subtracting hours moves the
  instant and the zone is consulted again at the new instant, so a
  daylight-saving change between the reference and the slot is honoured.
- `cells.dfy` (`Cells`): the rendering of one cell (`| 09 |`, ` 09+`,
  `|  9 am |`, ...), a parser for cells that proves the rendering lossless,
  and the specification of a whole row.
- `matrix.dfy` (`Matrix`): `calculate_timezone_hours` as two loops, proved
  against the row specification, followed by the requested ordering.
- `order.dfy` (`Order`): the row comparator (`Ord`, `PartialOrd`,
  `PartialEq`) and the two sorts it drives. The comparator is reversed on
  purpose: `a.cmp(b)` compares `b`'s key with `a`'s, so the ascending
  `sort()` puts the eastern zones first and `sort_by(|a, b| b.cmp(a))` the
  western ones. Both sorts are modelled as an insertion sort on sequences
  and proved to return a permutation ordered by the key.
- `regions.dfy` (`Regions`): `by_regions` as a loop over the list of zone
  names filling a map from region to the set of locations, the
  `print_timezones` / `print_regions` listings as the sequence of lines they
  print, and the order of Rust's `BTreeMap` / `BTreeSet` on strings
  (lexicographic, a proper prefix first).
- `zones.dfy` (`Zones`): `get_timezones` as a loop filling a map.
- `scenarios.dfy` (`Scenarios`): worked instances (Tokyo, London in 2024, a
  zone with a daylight-saving jump) pinning concrete cells and a concrete
  eastern-first order.
- `prelude.dfy`: `Option`, `Result` and `std::cmp::Ordering`.

The day marker compares the slot's local day of the month with the day of
the month of the reference instant in UTC, not with the reference's local
day, as `src/lib.rs:156` and `src/lib.rs:166-170` do: Tokyo's reference-hour cell at 20:00
UTC is marked `+`, and across a month end (local day 1 against UTC day 31)
the marker is `-` (`Scenarios.TokyoEveningCell`,
`Scenarios.TokyoMonthEndCell`).

## Model

| member | source | states |
|---|---|---|
| Ordering.Compare | src/lib.rs:166-170 | `Ord::cmp` on integers: Less, Equal, Greater exactly when the first is smaller, equal, larger |
| Ordering.Reverse | src/lib.rs:200 | swapping the arguments of a comparison: Less and Greater trade places, Equal stays |
| Civil.HourOfDay | src/lib.rs:171 | the hour of the wall clock is always in 0..23 |
| Civil.DaysInYear | src/lib.rs:166 | a Gregorian year has 365 or 366 days |
| Civil.YearDayFrom | src/lib.rs:166 | the year reached is no earlier than the start year and the day left is within that year |
| Civil.MonthOf | src/lib.rs:166 | the month of a day of the year is in 1..12 and the day lies between that month's first and last day |
| Civil.DayOfMonthOfDay | src/lib.rs:166 | the day of the month of any day number is in 1..31 |
| Civil.DayOfMonth | src/lib.rs:156 | `day()` of an instant is in 1..31 |
| Civil.Early1970 | src/lib.rs:156 | in January and February 1970 the day of the month follows the day count from the epoch (Jan 1 is day 1, Feb 1 is day 1) |
| Civil.OffsetBeforeTransitions | src/lib.rs:157 | before a zone's first transition its initial offset applies |
| Civil.OffsetOfLastStarted | src/lib.rs:157 | once a transition has started and the next has not, that transition's offset applies |
| Civil.LocalSeconds | src/lib.rs:71-73 | the local wall-clock seconds exceed the instant by exactly the zone's offset at that instant; a zone without transitions shifts by its fixed offset |
| Civil.ZonedTime.Hour | src/lib.rs:171 | `hour()` of a zoned time is in 0..23 |
| Civil.ZonedTime.Day | src/lib.rs:166 | `day()` of a zoned time is in 1..31 |
| Civil.AddHours | src/lib.rs:158-160 | `checked_add_signed(Duration::hours(h))` keeps the zone and moves the instant `h` hours later |
| Civil.SubHours | src/lib.rs:161-164 | `checked_sub_signed(Duration::hours(h))` keeps the zone and moves the instant `h` hours earlier |
| Civil.SubIsAddNegated | src/lib.rs:158-164 | subtracting `-offset` hours lands on the same zoned time as adding `offset`, so both branches of the shift agree |
| Cells.TruncDiv | src/lib.rs:150 | Rust's `/` on `i32`: rounds toward zero, remainder takes the sign of the dividend |
| Cells.HalfSpan | src/lib.rs:150 | `span / 2 - 1` is a valid slot index for spans of 2 or more and -1 for spans 0 and 1 |
| Cells.SlotCount | src/lib.rs:154 | `0..span` has `span` slots, none when the span is not positive |
| Cells.TwoDigits | src/lib.rs:171 | `{:>02}` of an hour is two digit characters whose value is the hour |
| Cells.RightAligned2 | src/lib.rs:175-177 | `{h:>2}` of a 12-hour value is two characters: a space and a digit below 10, two digits otherwise |
| Cells.Hour12 | src/lib.rs:173 | `hour12()`: the pm flag is set exactly from noon on, and the 12-hour value is in 1..12 and equals the hour modulo 12 |
| Cells.HourText | src/lib.rs:171-179 | the hour text is 2 characters in 24-hour mode and 5 in am/pm mode |
| Cells.DaySuffix | src/lib.rs:166-170 | `+` exactly when the slot's day is greater, `-` exactly when smaller, a space exactly when equal |
| Cells.RenderCell | src/lib.rs:180-185 | the cell has the expected width, and starts with a bar exactly when it is the reference hour |
| Cells.HourTextRoundTrip | src/lib.rs:171-179 | the hour text can be read back to the hour it shows, in both modes |
| Cells.CellRoundTrip | src/lib.rs:166-185 | a cell can be read back to whether it is the reference hour, its hour and its day marker: rendering loses nothing |
| Cells.NineOClockCell | src/lib.rs:171-185 | concrete cells: the reference cell at 9 in both modes (bar-framed), 21:00 on a later day and midnight on an earlier day in am/pm mode |
| Cells.CellAt | src/lib.rs:155-185 | the cell of a slot is marked as the reference hour exactly when its offset is 0 |
| Cells.HourRow | src/lib.rs:153-186 | a row has one cell per slot of `0..span` |
| Cells.SlotReading | src/lib.rs:154-185 | slot `i` of a row shows the local hour at `date + (i - half_span)` hours in its zone, the marker of that local day against the UTC day of `date`, and is the reference cell exactly at `i == half_span` |
| Cells.CurrentCellOnce | src/lib.rs:150-185 | exactly one cell of a row is the reference hour, at index `span / 2 - 1`, and there is one exactly when the span is at least 2 |
| Matrix.BuiltRows | src/lib.rs:152-192 | one row per requested zone |
| Matrix.BuiltRow | src/lib.rs:187-191 | the pushed row carries the zone's name and zone and one cell per slot, exactly one of which, at `span / 2 - 1`, is the reference cell |
| Matrix.FormatHour | src/lib.rs:171-179 | the hour text chosen by the formatting branches is the zero-padded hour, or the 12-hour value with `am` / `pm` |
| Matrix.HourCell | src/lib.rs:155-185 | one pass of the inner loop: reading the zone at `date` shifted by the offset (added when non-negative, subtracted otherwise) gives the slot's specified cell |
| Matrix.BuildHours | src/lib.rs:153-186 | the inner loop, with its add-or-subtract of the offset and its formatting branches, yields exactly the row specification |
| Matrix.CalculateTimezoneHours | src/lib.rs:143-204 | one row per zone, each carrying its name, zone and row specification; rows in input order for `None`, a permutation with non-increasing keys for `East`, non-decreasing keys for `West` |
| Order.NaiveLocalTimestamp | src/lib.rs:70-75 | the key is `now` plus the zone's UTC offset at `now`, and read as UTC it shows the hour and the day of the month of the zone's wall clock at `now` |
| Order.Cmp | src/lib.rs:81-88 | a row is Less exactly when its zone's offset at `now` is larger (further east), Equal exactly when the offsets are equal, Greater exactly when smaller |
| Order.PartialCmp | src/lib.rs:90-94 | always `Some`, Less exactly when `self`'s key is larger, Greater exactly when smaller |
| Order.Eq | src/lib.rs:96-101 | two rows are equal exactly when their zones have the same offset at `now`, whatever their names and cells |
| Order.CmpIsConsistent | src/lib.rs:81-101 | `cmp` is antisymmetric, and Equal from `cmp` or `partial_cmp` coincides with `eq` |
| Order.Apply | src/lib.rs:195-201 | `sort()` compares with `cmp`, the `sort_by` closure calls `cmp` with its arguments swapped, which is its reverse |
| Order.ApplyByRank | src/lib.rs:196-200 | both comparators order rows by a rank: the key negated for `sort()`, the key for the flipped `sort_by` |
| Order.SortedComparators | src/lib.rs:193-203 | sorted by `cmp` means keys non-increasing (east first); sorted by the flipped comparator means keys non-decreasing (west first) |
| Order.SortBy | src/lib.rs:196-200 | the sort returns a permutation of its input sorted by the comparator |
| Order.Insert | src/lib.rs:196-200 | inserting a row into a sorted sequence adds exactly that row and keeps it sorted |
| Order.InsertKeepsSorted | src/lib.rs:196-200 | a row placed before the first row that ranks above it leaves the sequence sorted |
| Order.SpliceSameRows | src/lib.rs:196-200 | splicing a row into a sequence adds exactly that row |
| Order.Ranks | src/lib.rs:196-200 | the rank sequence has one rank per row, in order |
| Order.SortedByRank | src/lib.rs:196-200 | rows are sorted under a comparator exactly when their ranks never decrease |
| Order.InsertIntoAscending | src/lib.rs:196-200 | a value placed before the first larger one keeps an ascending sequence ascending |
| Order.Arrange | src/lib.rs:193-203 | the final `match`: `None` keeps the rows as built, `East` gives a permutation with keys non-increasing, `West` one with keys non-decreasing |
| Order.Reversed | src/lib.rs:193-203 | position `i` of the reversed rows holds position `n - 1 - i` |
| Order.ReversedSameRows | src/lib.rs:193-203 | reversing keeps the same rows |
| Order.SameFirstRow | src/lib.rs:193-203 | two west-first orders of the same rows, one strictly increasing, start with the same row |
| Order.SameTails | src/lib.rs:193-203 | removing the same first row from two permutations leaves permutations |
| Order.WestFirstUnique | src/lib.rs:193-203 | with distinct keys there is only one west-first order of a set of rows |
| Order.EastWestReversed | src/lib.rs:193-203 | when no two zones share an offset at `now`, the `West` order is exactly the `East` order reversed |
| Regions.FirstSlash | src/lib.rs:12 | the position found holds the first `/` of the name |
| Regions.SplitAfterFirst | src/lib.rs:12 | splitting `p/r`, when `p` holds no `/`, gives `p` and then the segments of `r` |
| Regions.Split | src/lib.rs:12 | `split('/')` yields at least one segment, none holding `/`, that joined by `/` give back the name |
| Regions.SplitJoin | src/lib.rs:12 | splitting segments joined by `/` gives back the segments |
| Regions.RegionAndLocation | src/lib.rs:12-14 | a name's region is its first segment and its location its second segment, or none |
| Regions.NameBeginsWithRegion | src/lib.rs:12-14 | the contract of `RegionOf` and `LocationOf`: the region holds no `/` and is the whole name when there is none; a location exists exactly when the name holds `/`, holds no `/` itself, and the name begins with `region/location` followed by its end or a `/` |
| Regions.StrLessIrreflexive | src/lib.rs:8 | no string orders before itself |
| Regions.StrLessAsymmetric | src/lib.rs:8 | two strings never order before each other |
| Regions.StrLessTransitive | src/lib.rs:8 | the string order is transitive |
| Regions.StrLessTotal | src/lib.rs:8 | of two different strings one orders before the other |
| Regions.StrLessCommonPrefix | src/lib.rs:44 | a common prefix does not change the order of two strings |
| Regions.StrLessProperPrefix | src/lib.rs:44-47 | a proper prefix orders first, so a bare region precedes `region/...` |
| Regions.LeastExists | src/lib.rs:30 | every non-empty set of strings has a least element |
| Regions.LeastUnique | src/lib.rs:30 | a set of strings has only one least element |
| Regions.SortedFacts | src/lib.rs:30 | the least element followed by the others in increasing order lists the set in increasing order |
| Regions.SortedStrings | src/lib.rs:30 | iterating a `BTreeSet` or `BTreeMap` keys: every element once, in increasing order |
| Regions.GroupedStep | src/lib.rs:15-24 | inserting one name's location under its region keeps the grouping of the names seen so far |
| Regions.ByRegions | src/lib.rs:8-27 | the map's keys are exactly the regions of the names, and under each lie exactly the locations of the names of that region |
| Regions.LocationLines | src/lib.rs:41-50 | the printed lines are exactly the region (for a name with no location) and `region/location` for each location, in increasing order |
| Regions.LocationLinesFacts | src/lib.rs:41-50 | the lines built from a sorted location list list each location once and nothing else, in increasing order |
| Regions.ListedIffLocation | src/lib.rs:41-50 | a location's line is printed exactly when the location is in the region's set |
| Regions.LinesIncreasing | src/lib.rs:41-50 | the region's lines come out in increasing order |
| Regions.PrintRegions | src/lib.rs:29-34 | every region printed once, in increasing order, and nothing else |
| Regions.PrintTimezones | src/lib.rs:36-60 | with a region: the error `Cannot find region <name>` exactly when it is unknown; otherwise `region/x` is printed exactly for each location `x` of the region (the bare region for a name without `/`), nothing else is printed, and the lines are strictly increasing; without one: exactly the regions, strictly increasing |
| Regions.ListedZones | src/lib.rs:8-60 | listing a region of the grouped names fails exactly when no name has that region, and otherwise prints, in increasing order, each name of the region cut after its second segment, and nothing else |
| Zones.ParseZone | src/lib.rs:111-112 | a name parses exactly when the database lists it, to the zone listed |
| Zones.GetTimezones | src/lib.rs:109-125 | the result holds exactly the given names that parse, each with its zone; no names give no zones |
| Scenarios.TokyoEveningCell | src/lib.rs:155-185 | at 20:00 UTC Tokyo's reference cell shows hour 05, bar-framed, marked `+` (a later day) |
| Scenarios.TokyoMonthEndCell | src/lib.rs:156-170 | across a month end the marker compares day 1 with day 31 and marks Tokyo's 05:00 reference cell `-` |
| Scenarios.TokyoLocal | src/lib.rs:157 | Tokyo's wall clock is nine hours ahead of UTC at every instant |
| Scenarios.ClockAt | src/lib.rs:166-171 | in January and February 1970 the hour and the day of the month are read off the seconds since the epoch |
| Scenarios.RenderedCells | src/lib.rs:180-185 | the cells the scenarios show, written out |
| Scenarios.SpringForwardCell | src/lib.rs:157-165 | each slot around a daylight-saving jump is read at its own instant |
| Scenarios.SpringForwardRow | src/lib.rs:150-186 | the row across a clock-forward jump shows hours 00, 01 (the reference, bar-framed), 03 and 04: the skipped hour never shows |
| Scenarios.LondonTokyoEastFirst | src/lib.rs:143-204 | on 1 January 2024 `East` puts Tokyo before London, each row of four cells with the reference at index 1 |
| Scenarios.TwoRowsEastFirst | src/lib.rs:195-197 | two rows sorted eastern-first come out with the one whose clock is ahead first |
| Scenarios.TokyoAheadOfLondon | src/lib.rs:70-75 | on 1 January 2024 London is at UTC+0 and Tokyo at UTC+9 |

## Left out

- The timezone database (`chrono_tz`): zones are supplied as data (an initial offset and a list of transitions), and `TZ_VARIANTS` is the list of names given to `Regions.ByRegions`.
- Zones.GetTimezones: parsing a name is a lookup in a database map given as a parameter; the `"{e}: discarding"` and `"No timezones provided."` messages are console output and are not modelled.
- Zones.GetTimezones: a `HashMap` has no defined iteration order, so `Matrix.CalculateTimezoneHours` takes the zones as a sequence in whatever order the map yields them.
- Order.Cmp: `Utc::now()` is read again inside every comparison in the source; the model takes one `now` for the whole sort, so it does not capture the clock moving (and an offset change) in the middle of a sort.
- Order.Arrange: the stability of Rust's `sort` / `sort_by` is not stated; the contract fixes only the keys' order, so the order of rows with equal keys is left open.
- Regions.PrintTimezones, Regions.PrintRegions: the lines are returned instead of printed; the `anyhow` error is modelled as a `Failure` holding its message.
- Regions.StrLess: compares characters, while Rust compares UTF-8 bytes; the two orders agree on code points.
- `get_utc_date` and the parsing of the `%Y-%m-%d %H:%M` date: the reference instant and `now` are parameters.
- `print_table` (the `prettytable` layout and header) and `src/main.rs` (argument parsing) are not part of this model.
- Matrix.CalculateTimezoneHours: `i32` / `i64` arithmetic and the `.unwrap()` on `checked_add_signed` / `checked_sub_signed` are modelled with unbounded integers, so the overflow panics at the extremes of the date range are not captured.
- Civil.DayOfMonth: seconds before 1970 use the same proleptic Gregorian calendar; leap seconds are not modelled (chrono ignores them too).
