/**
 * Ordering the rows across timezones.  A row's key is the wall-clock
 * reading of `now` in its zone taken as a UTC timestamp; the row comparator
 * is deliberately reversed, so an ascending sort puts the eastern zones
 * (the ones whose clocks are ahead) first.
 */
module Order {
  import opened Civil
  import opened Wrappers
  import opened Ordering

  /** One built row: the requested name, its hour cells, the resolved zone. */
  datatype TimezoneHours = TimezoneHours(name: string, hours: seq<string>, tz: Zone)

  datatype SortOrder = None | East | West

  /** The wall-clock reading of `now` in the row's zone, read back as a UTC timestamp. */
  function NaiveLocalTimestamp(row: TimezoneHours, now: int): (key: int)
    ensures key - now == OffsetAt(row.tz, now)
    ensures HourOfDay(key) == ZonedTime(now, row.tz).Hour()
    ensures DayOfMonth(key) == ZonedTime(now, row.tz).Day()
  {
    LocalSeconds(row.tz, now)
  }

  /**
   * `Ord::cmp`: `other`'s key against `self`'s.  A row is Less (sorts
   * first) exactly when its zone's UTC offset at `now` is larger.
   */
  function Cmp(self: TimezoneHours, other: TimezoneHours, now: int): (o: Ordering)
    ensures o == Less <==> OffsetAt(self.tz, now) > OffsetAt(other.tz, now)
    ensures o == Equal <==> OffsetAt(self.tz, now) == OffsetAt(other.tz, now)
    ensures o == Greater <==> OffsetAt(self.tz, now) < OffsetAt(other.tz, now)
  {
    Compare(NaiveLocalTimestamp(other, now), NaiveLocalTimestamp(self, now))
  }

  /** `PartialOrd::partial_cmp`: always defined, and agreeing with `Cmp`. */
  function PartialCmp(self: TimezoneHours, other: TimezoneHours, now: int): (o: Option<Ordering>)
    ensures o.Some?
    ensures o.value == Less <==> NaiveLocalTimestamp(self, now) > NaiveLocalTimestamp(other, now)
    ensures o.value == Greater <==> NaiveLocalTimestamp(self, now) < NaiveLocalTimestamp(other, now)
  {
    Some(Cmp(self, other, now))
  }

  /** `PartialEq::eq`: equal keys, whatever the names and cells. */
  function Eq(self: TimezoneHours, other: TimezoneHours, now: int): (b: bool)
    ensures b <==> OffsetAt(self.tz, now) == OffsetAt(other.tz, now)
  {
    NaiveLocalTimestamp(self, now) == NaiveLocalTimestamp(other, now)
  }

  /** For one `now`, swapping the arguments reverses the comparison, and Equal means eq. */
  lemma CmpIsConsistent(a: TimezoneHours, b: TimezoneHours, now: int)
    ensures Cmp(a, b, now) == Reverse(Cmp(b, a, now))
    ensures Cmp(a, b, now) == Equal <==> Eq(a, b, now)
    ensures PartialCmp(a, b, now) == Some(Equal) <==> Eq(a, b, now)
  {
  }

  // ---------------------------------------------------------------------
  // Sorting

  /**
   * The comparators handed to the sort: `Natural` is `Ord::cmp` (used by
   * `sort()`), `Flipped` is `|a, b| b.cmp(a)` (used by `sort_by`).
   */
  datatype Comparator = Natural | Flipped

  function Apply(c: Comparator, a: TimezoneHours, b: TimezoneHours, now: int): (o: Ordering)
    ensures c == Natural ==> o == Cmp(a, b, now)
    ensures c == Flipped ==> o == Reverse(Cmp(a, b, now))
  {
    match c
    case Natural => Cmp(a, b, now)
    case Flipped => Cmp(b, a, now)
  }

  /** The number a comparator effectively sorts by: the key, negated for `Natural`. */
  function Rank(c: Comparator, row: TimezoneHours, now: int): int
  {
    match c
    case Natural => -NaiveLocalTimestamp(row, now)
    case Flipped => NaiveLocalTimestamp(row, now)
  }

  lemma ApplyByRank(c: Comparator, a: TimezoneHours, b: TimezoneHours, now: int)
    ensures Apply(c, a, b, now) != Greater <==> Rank(c, a, now) <= Rank(c, b, now)
  {
  }

  /** Every row is not Greater than any row after it, under comparator `c`. */
  ghost predicate SortedBy(rows: seq<TimezoneHours>, c: Comparator, now: int)
  {
    forall i, j :: 0 <= i < j < |rows| ==> Apply(c, rows[i], rows[j], now) != Greater
  }

  /** Keys never increase along the rows: eastern zones first. */
  ghost predicate EastFirst(rows: seq<TimezoneHours>, now: int)
  {
    forall i, j :: 0 <= i < j < |rows| ==>
      NaiveLocalTimestamp(rows[i], now) >= NaiveLocalTimestamp(rows[j], now)
  }

  /** Keys never decrease along the rows: western zones first. */
  ghost predicate WestFirst(rows: seq<TimezoneHours>, now: int)
  {
    forall i, j :: 0 <= i < j < |rows| ==>
      NaiveLocalTimestamp(rows[i], now) <= NaiveLocalTimestamp(rows[j], now)
  }

  /** Sorting ascending by the reversed `cmp` is sorting by descending key, and back. */
  lemma SortedComparators(rows: seq<TimezoneHours>, now: int)
    ensures SortedBy(rows, Natural, now) <==> EastFirst(rows, now)
    ensures SortedBy(rows, Flipped, now) <==> WestFirst(rows, now)
  {
  }

  /**
   * The slice sort: a stable insertion sort, ascending under `c`.  Its
   * result holds the same rows, as many times each, in sorted order.
   */
  method SortBy(rows: seq<TimezoneHours>, c: Comparator, now: int) returns (sorted: seq<TimezoneHours>)
    ensures multiset(sorted) == multiset(rows)
    ensures SortedBy(sorted, c, now)
  {
    sorted := [];
    var n := 0;
    while n < |rows|
      invariant n <= |rows|
      invariant multiset(sorted) == multiset(rows[..n])
      invariant SortedBy(sorted, c, now)
    {
      sorted := Insert(sorted, rows[n], c, now);
      assert rows[..n + 1] == rows[..n] + [rows[n]];
      n := n + 1;
    }
    assert rows[..n] == rows;
  }

  /** Puts `x` after every row of `sorted` that is not Greater than it. */
  method Insert(sorted: seq<TimezoneHours>, x: TimezoneHours, c: Comparator, now: int)
    returns (r: seq<TimezoneHours>)
    requires SortedBy(sorted, c, now)
    ensures multiset(r) == multiset(sorted) + multiset{x}
    ensures SortedBy(r, c, now)
  {
    var k := 0;
    while k < |sorted| && Apply(c, sorted[k], x, now) != Greater
      invariant 0 <= k <= |sorted|
      invariant forall m :: 0 <= m < k ==> Apply(c, sorted[m], x, now) != Greater
    {
      k := k + 1;
    }
    r := sorted[..k] + [x] + sorted[k..];
    SpliceSameRows(sorted, x, k);
    InsertKeepsSorted(sorted, x, k, c, now);
  }

  /** Splicing a row in adds exactly that row. */
  lemma SpliceSameRows(rows: seq<TimezoneHours>, x: TimezoneHours, k: int)
    requires 0 <= k <= |rows|
    ensures multiset(rows[..k] + [x] + rows[k..]) == multiset(rows) + multiset{x}
  {
    assert rows == rows[..k] + rows[k..];
  }

  /** Splicing `x` in at the first row that is Greater than it keeps the rows sorted. */
  lemma InsertKeepsSorted(sorted: seq<TimezoneHours>, x: TimezoneHours, k: int, c: Comparator, now: int)
    requires SortedBy(sorted, c, now)
    requires 0 <= k <= |sorted|
    requires forall m :: 0 <= m < k ==> Apply(c, sorted[m], x, now) != Greater
    requires k < |sorted| ==> Apply(c, sorted[k], x, now) == Greater
    ensures SortedBy(sorted[..k] + [x] + sorted[k..], c, now)
  {
    var ranks := Ranks(sorted, c, now);
    var rx := Rank(c, x, now);
    SortedByRank(sorted, c, now);
    forall m | 0 <= m < k
      ensures ranks[m] <= rx
    {
      ApplyByRank(c, sorted[m], x, now);
    }
    if k < |sorted| {
      ApplyByRank(c, sorted[k], x, now);
    }
    InsertIntoAscending(ranks, rx, k);
    var r := sorted[..k] + [x] + sorted[k..];
    assert Ranks(r, c, now) == ranks[..k] + [rx] + ranks[k..];
    SortedByRank(r, c, now);
  }

  /** The ranks of the rows, in order. */
  function Ranks(rows: seq<TimezoneHours>, c: Comparator, now: int): (ranks: seq<int>)
    ensures |ranks| == |rows|
    ensures forall i :: 0 <= i < |rows| ==> ranks[i] == Rank(c, rows[i], now)
  {
    seq(|rows|, i requires 0 <= i < |rows| => Rank(c, rows[i], now))
  }

  /** Sorted under `c` is the same as ranks never decreasing. */
  lemma SortedByRank(rows: seq<TimezoneHours>, c: Comparator, now: int)
    ensures SortedBy(rows, c, now) <==> Ascending(Ranks(rows, c, now))
  {
    var ranks := Ranks(rows, c, now);
    forall i, j | 0 <= i < j < |rows| {
      ApplyByRank(c, rows[i], rows[j], now);
    }
  }

  predicate Ascending(ks: seq<int>)
  {
    forall i, j :: 0 <= i < j < |ks| ==> ks[i] <= ks[j]
  }

  /** A value placed before the first larger one keeps an ascending sequence ascending. */
  lemma InsertIntoAscending(ks: seq<int>, v: int, k: int)
    requires Ascending(ks)
    requires 0 <= k <= |ks|
    requires forall m :: 0 <= m < k ==> ks[m] <= v
    requires k < |ks| ==> ks[k] > v
    ensures Ascending(ks[..k] + [v] + ks[k..])
  {
    var r := ks[..k] + [v] + ks[k..];
    forall i, j | 0 <= i < j < |r|
      ensures r[i] <= r[j]
    {
      if j > k {
        assert r[j] == ks[j - 1];
        if i == k {
          assert ks[k] <= ks[j - 1];
        }
      }
    }
  }

  /** The final `match sort_order`: as built, eastern first, or western first. */
  method Arrange(rows: seq<TimezoneHours>, order: SortOrder, now: int) returns (result: seq<TimezoneHours>)
    ensures multiset(result) == multiset(rows)
    ensures order == SortOrder.None ==> result == rows
    ensures order == East ==> EastFirst(result, now)
    ensures order == West ==> WestFirst(result, now)
  {
    match order
    case None =>
      result := rows;
    case East =>
      result := SortBy(rows, Natural, now);
      SortedComparators(result, now);
    case West =>
      result := SortBy(rows, Flipped, now);
      SortedComparators(result, now);
  }

  // ---------------------------------------------------------------------
  // The two sorted orders against each other

  function Reversed(rows: seq<TimezoneHours>): (r: seq<TimezoneHours>)
    ensures |r| == |rows|
    ensures forall i :: 0 <= i < |rows| ==> r[i] == rows[|rows| - 1 - i]
  {
    seq(|rows|, i requires 0 <= i < |rows| => rows[|rows| - 1 - i])
  }

  lemma {:induction false} ReversedSameRows(rows: seq<TimezoneHours>)
    ensures multiset(Reversed(rows)) == multiset(rows)
    decreases |rows|
  {
    if rows != [] {
      var n := |rows|;
      ReversedSameRows(rows[..n - 1]);
      assert Reversed(rows) == [rows[n - 1]] + Reversed(rows[..n - 1]);
      assert rows == rows[..n - 1] + [rows[n - 1]];
    }
  }

  /** No two rows have the same key at `now`. */
  ghost predicate DistinctKeys(rows: seq<TimezoneHours>, now: int)
  {
    forall i, j :: 0 <= i < j < |rows| ==>
      NaiveLocalTimestamp(rows[i], now) != NaiveLocalTimestamp(rows[j], now)
  }

  /** Keys strictly increase along the rows. */
  ghost predicate StrictlyWestFirst(rows: seq<TimezoneHours>, now: int)
  {
    forall i, j :: 0 <= i < j < |rows| ==>
      NaiveLocalTimestamp(rows[i], now) < NaiveLocalTimestamp(rows[j], now)
  }

  /** Both orderings start with the row of least key, and only one row has it. */
  lemma SameFirstRow(strict: seq<TimezoneHours>, rows: seq<TimezoneHours>, now: int)
    requires multiset(strict) == multiset(rows) && rows != []
    requires StrictlyWestFirst(strict, now) && WestFirst(rows, now)
    ensures strict != [] && strict[0] == rows[0]
  {
    assert |strict| == |multiset(strict)| == |multiset(rows)| == |rows|;
    assert strict[0] in multiset(rows);
    var m :| 0 <= m < |rows| && rows[m] == strict[0];
    assert rows[0] in multiset(strict);
    var k :| 0 <= k < |strict| && strict[k] == rows[0];
    assert NaiveLocalTimestamp(rows[0], now) <= NaiveLocalTimestamp(strict[0], now) by {
      if m > 0 { assert NaiveLocalTimestamp(rows[0], now) <= NaiveLocalTimestamp(rows[m], now); }
    }
    assert k == 0;
  }

  lemma SameTails(a: seq<TimezoneHours>, b: seq<TimezoneHours>)
    requires multiset(a) == multiset(b) && a != [] && b != [] && a[0] == b[0]
    ensures multiset(a[1..]) == multiset(b[1..])
  {
    assert a == [a[0]] + a[1..];
    assert b == [b[0]] + b[1..];
    assert multiset(a[1..]) == multiset(a) - multiset{a[0]};
    assert multiset(b[1..]) == multiset(b) - multiset{b[0]};
  }

  /**
   * Two orderings of the same rows, one with strictly increasing keys and
   * one with non-decreasing keys, are the same sequence.
   */
  lemma {:induction false} WestFirstUnique(strict: seq<TimezoneHours>, rows: seq<TimezoneHours>, now: int)
    requires multiset(strict) == multiset(rows)
    requires StrictlyWestFirst(strict, now) && WestFirst(rows, now)
    ensures strict == rows
    decreases |rows|
  {
    if rows == [] {
      assert |strict| == |multiset(strict)| == 0;
    } else {
      SameFirstRow(strict, rows, now);
      SameTails(strict, rows);
      WestFirstUnique(strict[1..], rows[1..], now);
      assert strict == [strict[0]] + strict[1..];
      assert rows == [rows[0]] + rows[1..];
    }
  }

  /**
   * When no two rows share a key, the western-first order is exactly the
   * eastern-first order read backwards.
   */
  lemma EastWestReversed(east: seq<TimezoneHours>, west: seq<TimezoneHours>, now: int)
    requires multiset(east) == multiset(west)
    requires EastFirst(east, now) && WestFirst(west, now)
    requires DistinctKeys(east, now)
    ensures west == Reversed(east)
  {
    var r := Reversed(east);
    ReversedSameRows(east);
    forall i, j | 0 <= i < j < |r|
      ensures NaiveLocalTimestamp(r[i], now) < NaiveLocalTimestamp(r[j], now)
    {
      assert r[i] == east[|east| - 1 - i] && r[j] == east[|east| - 1 - j];
    }
    WestFirstUnique(r, west, now);
  }
}
