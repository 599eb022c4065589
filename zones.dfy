/**
 * Choosing the timezones to show: the names given on the command line that
 * name a zone of the timezone database, each with its zone.
 */
module Zones {
  import opened Wrappers
  import opened Civil

  /** Parsing a zone name: a name is a zone exactly when the database lists it. */
  function ParseZone(database: map<string, Zone>, name: string): (z: Option<Zone>)
    ensures z.Some? <==> name in database
    ensures z.Some? ==> z.value == database[name]
  {
    if name in database then Some(database[name]) else None
  }

  /**
   * `get_timezones`: every command-line name that parses is kept with its
   * zone; the others are discarded; no names give no zones.
   */
  method GetTimezones(cmdlineTzs: seq<string>, database: map<string, Zone>)
    returns (timezones: map<string, Zone>)
    ensures forall s :: s in timezones <==> s in cmdlineTzs && s in database
    ensures forall s :: s in timezones ==> timezones[s] == database[s]
    ensures |cmdlineTzs| == 0 ==> timezones == map[]
  {
    timezones := map[];
    if |cmdlineTzs| != 0 {
      for i := 0 to |cmdlineTzs|
        invariant forall s :: s in timezones <==> s in cmdlineTzs[..i] && s in database
        invariant forall s :: s in timezones ==> timezones[s] == database[s]
      {
        var tzStr := cmdlineTzs[i];
        match ParseZone(database, tzStr)
        case Some(tz) =>
          timezones := timezones[tzStr := tz];
        case None =>
      }
      assert cmdlineTzs[..|cmdlineTzs|] == cmdlineTzs;
    }
  }
}
