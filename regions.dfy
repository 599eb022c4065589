/**
 * Listing the known timezone names by region.  A name is split on `/`:
 * the first segment is its region, the second (if any) its location, and
 * any further segments are dropped.  Regions and locations are kept in
 * ordered containers and listed in their order, which for strings is the
 * lexicographic order of their characters.
 */
module Regions {
  import opened Wrappers

  // ---------------------------------------------------------------------
  // Splitting a name on '/'

  /** The segments put back together, a `/` between each two. */
  function Join(parts: seq<string>): string
    requires |parts| >= 1
    decreases |parts|
  {
    if |parts| == 1 then parts[0] else parts[0] + "/" + Join(parts[1..])
  }

  /** The position of the first `/`. */
  function FirstSlash(s: string): (k: nat)
    requires '/' in s
    ensures k < |s| && s[k] == '/' && '/' !in s[..k]
  {
    if s[0] == '/' then 0
    else
      var k := FirstSlash(s[1..]);
      assert s[..k + 1] == [s[0]] + s[1..][..k];
      k + 1
  }

  /** `str::split('/')`: every segment, empty ones included; never empty. */
  function Split(s: string): (parts: seq<string>)
    ensures |parts| >= 1
    ensures forall i :: 0 <= i < |parts| ==> '/' !in parts[i]
    ensures Join(parts) == s
    decreases |s|
  {
    if '/' in s then
      var k := FirstSlash(s);
      var rest := Split(s[k + 1..]);
      assert ([s[..k]] + rest)[1..] == rest;
      assert s == s[..k] + "/" + s[k + 1..];
      [s[..k]] + rest
    else [s]
  }

  /** Splitting `p/r`, when `p` holds no `/`, gives `p` and then the segments of `r`. */
  lemma SplitAfterFirst(p: string, r: string)
    requires '/' !in p
    ensures Split(p + "/" + r) == [p] + Split(r)
  {
    var s := p + "/" + r;
    assert s[|p|] == '/';
    assert s[..|p|] == p;
    assert FirstSlash(s) == |p|;
    assert s[|p| + 1..] == r;
  }

  /** Splitting undoes joining segments that hold no `/`. */
  lemma {:induction false} SplitJoin(parts: seq<string>)
    requires |parts| >= 1
    requires forall i :: 0 <= i < |parts| ==> '/' !in parts[i]
    ensures Split(Join(parts)) == parts
    decreases |parts|
  {
    if |parts| > 1 {
      var s := Join(parts);
      var p := parts[0];
      var rest := Join(parts[1..]);
      assert s == p + "/" + rest;
      SplitAfterFirst(p, rest);
      SplitJoin(parts[1..]);
      assert parts == [p] + parts[1..];
    }
  }

  /** The first segment: `parts.next().unwrap_or("Unknown")`. */
  function RegionOf(name: string): string
  {
    var parts := Split(name);
    if |parts| > 0 then parts[0] else "Unknown"
  }

  /** The second segment, if there is one: `parts.next()`. */
  function LocationOf(name: string): Option<string>
  {
    var parts := Split(name);
    if |parts| >= 2 then Some(parts[1]) else None
  }

  /** A name made of segments has the first as its region and the second as its location. */
  lemma RegionAndLocation(parts: seq<string>)
    requires |parts| >= 1
    requires forall i :: 0 <= i < |parts| ==> '/' !in parts[i]
    ensures RegionOf(Join(parts)) == parts[0]
    ensures LocationOf(Join(parts)) == if |parts| >= 2 then Some(parts[1]) else None
  {
    SplitJoin(parts);
  }
  /**
   * A name begins with its region, then `/` and its location when it has
   * one, followed by the end of the name or a further `/`.
   */
  lemma {:induction false} NameBeginsWithRegion(name: string)
    ensures '/' !in RegionOf(name)
    ensures '/' !in name ==> RegionOf(name) == name && LocationOf(name) == None
    ensures '/' in name ==>
      var region := RegionOf(name);
      |region| < |name| && name[..|region| + 1] == region + "/"
    ensures LocationOf(name).Some? <==> '/' in name
    ensures LocationOf(name).Some? ==>
      var prefix := RegionOf(name) + "/" + LocationOf(name).value;
      '/' !in LocationOf(name).value &&
      |prefix| <= |name| && name[..|prefix|] == prefix &&
      (|prefix| < |name| ==> name[|prefix|] == '/')
  {
    var parts := Split(name);
    if '/' in name {
      var k := FirstSlash(name);
      assert |parts| >= 2;
    }
    if |parts| >= 2 {
      var p0, p1 := parts[0], parts[1];
      assert name == p0 + "/" + Join(parts[1..]);
      var tail := parts[1..];
      if |tail| == 1 {
        assert Join(tail) == p1;
      } else {
        assert Join(tail) == p1 + "/" + Join(tail[1..]);
      }
      assert name[..|p0| + 1] == p0 + "/";
    }
  }


  // ---------------------------------------------------------------------
  // The order of strings

  /** `Ord` on `str`: lexicographic, a proper prefix first. */
  predicate StrLess(a: string, b: string)
    decreases |a|
  {
    if a == [] then b != []
    else b != [] && (a[0] < b[0] || (a[0] == b[0] && StrLess(a[1..], b[1..])))
  }

  lemma {:induction false} StrLessIrreflexive(a: string)
    ensures !StrLess(a, a)
    decreases |a|
  {
    if a != [] {
      StrLessIrreflexive(a[1..]);
    }
  }

  lemma {:induction false} StrLessAsymmetric(a: string, b: string)
    ensures StrLess(a, b) ==> !StrLess(b, a)
    decreases |a|
  {
    if a != [] && b != [] && a[0] == b[0] {
      StrLessAsymmetric(a[1..], b[1..]);
    }
  }

  lemma {:induction false} StrLessTransitive(a: string, b: string, c: string)
    requires StrLess(a, b) && StrLess(b, c)
    ensures StrLess(a, c)
    decreases |a|
  {
    if a != [] && a[0] == b[0] && b[0] == c[0] {
      StrLessTransitive(a[1..], b[1..], c[1..]);
    }
  }

  lemma {:induction false} StrLessTotal(a: string, b: string)
    ensures a == b || StrLess(a, b) || StrLess(b, a)
    decreases |a|
  {
    if a != [] && b != [] && a[0] == b[0] {
      StrLessTotal(a[1..], b[1..]);
      if a[1..] == b[1..] {
        assert a == [a[0]] + a[1..] && b == [b[0]] + b[1..];
      }
    }
  }

  /** A common prefix does not change the order. */
  lemma {:induction false} StrLessCommonPrefix(p: string, a: string, b: string)
    ensures StrLess(p + a, p + b) <==> StrLess(a, b)
    decreases |p|
  {
    if p != [] {
      assert (p + a)[0] == p[0] == (p + b)[0];
      assert (p + a)[1..] == p[1..] + a && (p + b)[1..] == p[1..] + b;
      StrLessCommonPrefix(p[1..], a, b);
    } else {
      assert p + a == a && p + b == b;
    }
  }

  /** A string comes before every longer string that starts with it. */
  lemma {:induction false} StrLessProperPrefix(p: string, q: string)
    requires q != []
    ensures StrLess(p, p + q)
    decreases |p|
  {
    if p != [] {
      assert (p + q)[1..] == p[1..] + q;
      StrLessProperPrefix(p[1..], q);
    }
  }

  predicate Increasing(lines: seq<string>)
  {
    forall i, j :: 0 <= i < j < |lines| ==> StrLess(lines[i], lines[j])
  }

  /** `m` is the least member of `s`. */
  predicate IsLeast(m: string, s: set<string>)
  {
    m in s && forall y :: y in s ==> m == y || StrLess(m, y)
  }

  /** A set of strings has a least element. */
  lemma {:induction false} LeastExists(s: set<string>)
    requires s != {}
    ensures exists m :: IsLeast(m, s)
    decreases |s|
  {
    var x :| x in s;
    if s != {x} {
      LeastExists(s - {x});
      var m :| IsLeast(m, s - {x});
      StrLessTotal(x, m);
      if StrLess(x, m) {
        forall y | y in s
          ensures x == y || StrLess(x, y)
        {
          if y != x && y != m {
            StrLessTransitive(x, m, y);
          }
        }
        assert IsLeast(x, s);
      } else {
        assert IsLeast(m, s);
      }
    } else {
      assert IsLeast(x, s);
    }
  }

  /** A set of strings has only one least element. */
  lemma LeastUnique(s: set<string>)
    ensures forall a, b :: IsLeast(a, s) && IsLeast(b, s) ==> a == b
  {
    forall a, b | IsLeast(a, s) && IsLeast(b, s)
      ensures a == b
    {
      StrLessAsymmetric(a, b);
    }
  }

  /** The members of a set of strings in increasing order: a `BTreeSet`'s iteration. */
  function SortedStrings(s: set<string>): (r: seq<string>)
    ensures forall x :: x in r <==> x in s
    ensures Increasing(r)
    decreases |s|
  {
    if s == {} then []
    else
      LeastExists(s);
      LeastUnique(s);
      var m :| IsLeast(m, s);
      SortedFacts(s, m, SortedStrings(s - {m}));
      [m] + SortedStrings(s - {m})
  }

  /** The least member followed by the rest in increasing order is in increasing order. */
  lemma SortedFacts(s: set<string>, m: string, rest: seq<string>)
    requires IsLeast(m, s)
    requires forall x :: x in rest <==> x in s - {m}
    requires Increasing(rest)
    ensures forall x :: x in [m] + rest <==> x in s
    ensures Increasing([m] + rest)
  {
    var r := [m] + rest;
    forall i, j | 0 <= i < j < |r|
      ensures StrLess(r[i], r[j])
    {
      if i == 0 {
        assert r[j] in rest;
      } else {
        assert r[i] == rest[i - 1] && r[j] == rest[j - 1];
      }
    }
  }

  // ---------------------------------------------------------------------
  // Grouping names by region

  /**
   * `res` groups `names`: its keys are exactly their regions, and under each
   * region lie exactly the locations of the names in that region.
   */
  ghost predicate Grouped(res: map<string, set<Option<string>>>, names: seq<string>)
  {
    && (forall r :: r in res <==> exists n :: n in names && RegionOf(n) == r)
    && (forall r, loc :: r in res ==>
          (loc in res[r] <==> exists n :: n in names && RegionOf(n) == r && LocationOf(n) == loc))
  }

  /** Inserting one more name's location under its region keeps the grouping. */
  lemma GroupedStep(res: map<string, set<Option<string>>>, seen: seq<string>, name: string)
    requires Grouped(res, seen)
    ensures var region, location := RegionOf(name), LocationOf(name);
            Grouped(if region in res then res[region := res[region] + {location}]
                    else res[region := {location}], seen + [name])
  {
    var region, location := RegionOf(name), LocationOf(name);
    var res' := if region in res then res[region := res[region] + {location}]
                else res[region := {location}];
    GroupedRegionsStep(res, res', seen, name);
    GroupedLocationsStep(res, res', seen, name);
  }

  /** The regions half of `GroupedStep`. */
  lemma GroupedRegionsStep(res: map<string, set<Option<string>>>, res': map<string, set<Option<string>>>,
                           seen: seq<string>, name: string)
    requires Grouped(res, seen)
    requires res' == if RegionOf(name) in res then res[RegionOf(name) := res[RegionOf(name)] + {LocationOf(name)}]
                     else res[RegionOf(name) := {LocationOf(name)}]
    ensures forall r :: r in res' <==> exists n :: n in seen + [name] && RegionOf(n) == r
  {
    var seen' := seen + [name];
    assert forall n :: n in seen' <==> n in seen || n == name;
    forall r
      ensures r in res' <==> exists n :: n in seen' && RegionOf(n) == r
    {
      if r == RegionOf(name) {
        assert name in seen';
      }
    }
  }

  /** The locations half of `GroupedStep`. */
  lemma GroupedLocationsStep(res: map<string, set<Option<string>>>, res': map<string, set<Option<string>>>,
                             seen: seq<string>, name: string)
    requires Grouped(res, seen)
    requires res' == if RegionOf(name) in res then res[RegionOf(name) := res[RegionOf(name)] + {LocationOf(name)}]
                     else res[RegionOf(name) := {LocationOf(name)}]
    ensures forall r, loc :: r in res' ==>
              (loc in res'[r] <==> exists n :: n in seen + [name] && RegionOf(n) == r && LocationOf(n) == loc)
  {
    var seen' := seen + [name];
    assert forall n :: n in seen' <==> n in seen || n == name;
    forall r, loc | r in res'
      ensures loc in res'[r] <==> exists n :: n in seen' && RegionOf(n) == r && LocationOf(n) == loc
    {
      if r == RegionOf(name) && loc == LocationOf(name) {
        assert name in seen';
      }
    }
  }

  /**
   * `by_regions`, over the list of known zone names: every region maps to
   * the set of locations found under it (None for a name with no `/`).
   */
  method ByRegions(names: seq<string>) returns (res: map<string, set<Option<string>>>)
    ensures Grouped(res, names)
  {
    res := map[];
    var i := 0;
    while i < |names|
      invariant 0 <= i <= |names|
      invariant Grouped(res, names[..i])
    {
      var parts := Split(names[i]);
      var region := if |parts| > 0 then parts[0] else "Unknown";
      var location := if |parts| >= 2 then Some(parts[1]) else None;
      GroupedStep(res, names[..i], names[i]);
      if region in res {
        res := res[region := res[region] + {location}];
      } else {
        res := res[region := {location}];
      }
      assert names[..i + 1] == names[..i] + [names[i]];
      i := i + 1;
    }
    assert names[..i] == names;
  }

  // ---------------------------------------------------------------------
  // Listing

  /** The name of a zone cut after its second segment: what a listing shows for it. */
  function ListedName(region: string, location: Option<string>): string
  {
    match location
    case None => region
    case Some(x) => region + "/" + x
  }

  /**
   * The lines listing one region: the region alone for a bare name, then
   * `region/location` for each location, in increasing order.
   */
  function LocationLines(region: string, locations: set<Option<string>>): (lines: seq<string>)
    ensures forall loc :: ListedName(region, loc) in lines <==> loc in locations
    ensures forall line :: line in lines ==> exists loc :: loc in locations && line == ListedName(region, loc)
    ensures Increasing(lines)
  {
    var named := SortedStrings(set loc | loc in locations && loc.Some? :: loc.value);
    var bare := if None in locations then [region] else [];
    var lines := bare + seq(|named|, i requires 0 <= i < |named| => region + "/" + named[i]);
    LocationLinesFacts(region, locations, named, bare, lines);
    lines
  }

  /** The lines of a region are the bare region (if listed) followed by `region/x` for each `x`. */
  ghost predicate LinesOf(region: string, locations: set<Option<string>>, named: seq<string>,
                          bare: seq<string>, lines: seq<string>)
  {
    && (forall x :: x in named <==> Some(x) in locations)
    && Increasing(named)
    && bare == (if None in locations then [region] else [])
    && |lines| == |bare| + |named|
    && (forall i :: 0 <= i < |bare| ==> lines[i] == region)
    && (forall i :: 0 <= i < |named| ==> lines[|bare| + i] == region + "/" + named[i])
  }

  lemma LocationLinesFacts(region: string, locations: set<Option<string>>, named: seq<string>,
                           bare: seq<string>, lines: seq<string>)
    requires forall x :: x in named <==> Some(x) in locations
    requires Increasing(named)
    requires bare == if None in locations then [region] else []
    requires lines == bare + seq(|named|, i requires 0 <= i < |named| => region + "/" + named[i])
    ensures forall loc :: ListedName(region, loc) in lines <==> loc in locations
    ensures forall line :: line in lines ==> exists loc :: loc in locations && line == ListedName(region, loc)
    ensures Increasing(lines)
  {
    assert LinesOf(region, locations, named, bare, lines);
    forall loc
      ensures ListedName(region, loc) in lines <==> loc in locations
    {
      ListedIffLocation(region, locations, named, bare, lines, loc);
    }
    LinesNameLocations(region, locations, named, bare, lines);
    LinesIncreasing(region, locations, named, bare, lines);
  }

  lemma LinesNameLocations(region: string, locations: set<Option<string>>, named: seq<string>,
                           bare: seq<string>, lines: seq<string>)
    requires LinesOf(region, locations, named, bare, lines)
    ensures forall line :: line in lines ==> exists loc :: loc in locations && line == ListedName(region, loc)
  {
    forall line | line in lines
      ensures exists loc :: loc in locations && line == ListedName(region, loc)
    {
      var i :| 0 <= i < |lines| && lines[i] == line;
      if i < |bare| {
        assert line == ListedName(region, None);
      } else {
        assert line == ListedName(region, Some(named[i - |bare|]));
      }
    }
  }

  lemma ListedIffLocation(region: string, locations: set<Option<string>>, named: seq<string>,
                          bare: seq<string>, lines: seq<string>, loc: Option<string>)
    requires LinesOf(region, locations, named, bare, lines)
    ensures ListedName(region, loc) in lines <==> loc in locations
  {
    var p := region + "/";
    match loc
    case None =>
      if None in locations {
        assert lines[0] == region;
      } else {
        forall i | 0 <= i < |lines|
          ensures lines[i] != region
        {
          assert |lines[i]| == |p + named[i]| > |region|;
        }
      }
    case Some(x) =>
      if p + x in lines {
        assert forall k :: 0 <= k < |bare| ==> |lines[k]| < |p + x|;
        var i :| 0 <= i < |lines| && lines[i] == p + x;
        var j := i - |bare|;
        assert named[j] == (p + named[j])[|p|..] == (p + x)[|p|..] == x;
      }
      if x in named {
        var j :| 0 <= j < |named| && named[j] == x;
        assert lines[|bare| + j] == p + x;
      }
  }

  lemma LinesIncreasing(region: string, locations: set<Option<string>>, named: seq<string>,
                        bare: seq<string>, lines: seq<string>)
    requires LinesOf(region, locations, named, bare, lines)
    ensures Increasing(lines)
  {
    var p := region + "/";
    forall i, j | 0 <= i < j < |lines|
      ensures StrLess(lines[i], lines[j])
    {
      var nj := named[j - |bare|];
      if i < |bare| {
        StrLessProperPrefix(region, "/" + nj);
        assert region + ("/" + nj) == p + nj;
      } else {
        StrLessCommonPrefix(p, named[i - |bare|], nj);
      }
    }
  }

  /** `print_regions`: every region once, in increasing order. */
  function PrintRegions(regions: map<string, set<Option<string>>>): (lines: seq<string>)
    ensures forall r :: r in lines <==> r in regions
    ensures Increasing(lines)
  {
    SortedStrings(regions.Keys)
  }

  /**
   * `print_timezones`: with a region, the lines listing it, or the error
   * "Cannot find region ..." when it is not a known region; without one,
   * the list of regions.
   */
  function PrintTimezones(arg: Option<string>, regions: map<string, set<Option<string>>>)
    : (r: Result<seq<string>, string>)
    ensures arg.Some? ==> (r.Failure? <==> arg.value !in regions)
    ensures arg.Some? && r.Failure? ==> r.error == "Cannot find region " + arg.value
    ensures arg.Some? && r.Success? ==>
      && (forall loc :: ListedName(arg.value, loc) in r.value <==> loc in regions[arg.value])
      && (forall line :: line in r.value ==>
            exists loc :: loc in regions[arg.value] && line == ListedName(arg.value, loc))
      && Increasing(r.value)
    ensures arg.None? ==> r.Success? && (forall x :: x in r.value <==> x in regions) && Increasing(r.value)
  {
    match arg
    case Some(region) =>
      if region in regions then Success(LocationLines(region, regions[region]))
      else Failure("Cannot find region " + region)
    case None => Success(PrintRegions(regions))
  }

  /**
   * Listing a region of the grouped names fails exactly when no name has
   * that region; otherwise it shows, in increasing order, every name of the
   * region cut after its second segment, and nothing else.
   */
  lemma ListedZones(names: seq<string>, regions: map<string, set<Option<string>>>, region: string)
    requires Grouped(regions, names)
    ensures PrintTimezones(Some(region), regions).Failure? <==>
      forall n :: n in names ==> RegionOf(n) != region
    ensures PrintTimezones(Some(region), regions).Success? ==>
      var lines := PrintTimezones(Some(region), regions).value;
      Increasing(lines) &&
      forall line :: line in lines <==>
        exists n :: n in names && RegionOf(n) == region && line == ListedName(region, LocationOf(n))
  {
    if region in regions {
      var lines := PrintTimezones(Some(region), regions).value;
      assert lines == LocationLines(region, regions[region]);
      forall line
        ensures line in lines <==>
          exists n :: n in names && RegionOf(n) == region && line == ListedName(region, LocationOf(n))
      {
        if line in lines {
          var loc :| loc in regions[region] && line == ListedName(region, loc);
          var n :| n in names && RegionOf(n) == region && LocationOf(n) == loc;
        }
      }
    }
  }
}
