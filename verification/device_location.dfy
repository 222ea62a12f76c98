/** The `device-location` query route after its database queries: one device's
    location by MAC (`GET`) and the locations of a list of devices (`POST`).
    Unlike the `all-devices` route, the floor here is the most frequent floor
    over all of a device's rows, defaulting to 1. */
module DeviceLocation {
  import opened Wrappers
  import opened Grouping
  import opened Localization
  import opened DeviceQuery
  import opened JsonValues

  /** A device's location as the route reports it. `accuracyEstimate` and
      `floor` are absent (`None`) in the no-scan answer. */
  datatype Located<K> = Located(
    mac: K,
    position: Option<Point>,
    timestamp: int,
    scansUsed: nat,
    accuracyEstimate: Option<real>,
    floor: Option<int>)

  /** The answer for a device with no recent scans. */
  function NoScans<K>(mac: K, now: int): Located<K>
  {
    Located(mac, None, now, 0, None, None)
  }

  /** The location of one device from its rows (newest first), the stations built
      with `withZ` as the route builds them. */
  function Locate<K>(pow10: Exp10, mac: K, rows: seq<ScanRow>, now: int, withZ: bool): (loc: Located<K>)
    ensures loc.mac == mac
    ensures |rows| == 0 ==> loc == NoScans(mac, now)
    ensures |rows| > 0 ==> loc.timestamp == rows[0].timestamp && loc.floor == Some(MajorityFloor(rows))
    ensures loc.position.Some? <==> loc.scansUsed >= MinScans
    ensures loc.accuracyEstimate.Some? <==> loc.position.Some?
  {
    if |rows| == 0 then NoScans(mac, now)
    else
      var latest := LatestPerEndpoint(rows);
      LatestPerEndpointCount(rows);
      var stations := Stations(pow10, latest, withZ);
      var position := Trilaterate(stations);
      Located(mac, position, rows[0].timestamp, |stations|,
        if position.Some? && |stations| > 0 then Some(MeanDistance(stations)) else None,
        Some(MajorityFloor(rows)))
  }

  /** What a located device's numbers mean: `scans_used` counts its distinct
      endpoints; the position lies in every box holding all endpoints (z read
      as `z || 0` with `withZ`, and z is 0 without it); the accuracy lies
      between the smallest and the largest distance; the floor is one that
      occurs most often among the rows' floors, and 1 when none has a floor. */
  lemma LocateFacts<K>(pow10: Exp10, mac: K, rows: seq<ScanRow>, now: int, withZ: bool,
                       lo: Point, hi: Point, dLo: real, dHi: real)
    requires forall i :: 0 <= i < |rows| ==> InBox(Point(rows[i].x, rows[i].y, if withZ then ZValue(rows[i]) else 0.0), lo, hi)
    requires forall i :: 0 <= i < |rows| ==> dLo <= Distance(pow10, rows[i].rssi) <= dHi
    ensures var loc := Locate(pow10, mac, rows, now, withZ);
      && loc.scansUsed == |GroupBy(rows, EndpointOf)|
      && (loc.position.Some? ==> InBox(loc.position.value, lo, hi))
      && (loc.position.Some? && !withZ ==> loc.position.value.z == 0.0)
      && (loc.accuracyEstimate.Some? ==> dLo <= loc.accuracyEstimate.value <= dHi)
  {
    LatestPerEndpointCount(rows);
    if |rows| > 0 {
      var latest := LatestPerEndpoint(rows);
      LatestPerEndpointIsLatest(rows);
      forall i | 0 <= i < |latest| ensures latest[i] in rows {
        var j :| IsLatest(rows, EndpointOf, TimestampOf, latest[i].endpointId, j) && rows[j] == latest[i];
      }
      var stations := Stations(pow10, latest, withZ);
      StationsWithin(pow10, rows, latest, withZ, lo, hi, dLo, dHi);
      TrilaterateWithinStations(stations, lo, hi);
      if !withZ {
        TrilaterateFlatStations(stations);
      }
      if |stations| > 0 {
        MeanDistanceWithin(stations, dLo, dHi);
      }
    }
  }

  /** Solver inputs built from some of the rows keep the rows' bounds. */
  lemma StationsWithin(pow10: Exp10, rows: seq<ScanRow>, latest: seq<ScanRow>, withZ: bool,
                       lo: Point, hi: Point, dLo: real, dHi: real)
    requires forall i :: 0 <= i < |latest| ==> latest[i] in rows
    requires forall i :: 0 <= i < |rows| ==> InBox(Point(rows[i].x, rows[i].y, if withZ then ZValue(rows[i]) else 0.0), lo, hi)
    requires forall i :: 0 <= i < |rows| ==> dLo <= Distance(pow10, rows[i].rssi) <= dHi
    ensures var ss := Stations(pow10, latest, withZ);
      && (forall i :: 0 <= i < |ss| ==> InBox(Coords(ss[i].position), lo, hi))
      && (!withZ ==> forall i :: 0 <= i < |ss| ==> ss[i].position.z.None?)
      && (forall i :: 0 <= i < |ss| ==> dLo <= ss[i].distance <= dHi)
  {
    var ss := Stations(pow10, latest, withZ);
    forall i | 0 <= i < |ss|
      ensures InBox(Coords(ss[i].position), lo, hi) && dLo <= ss[i].distance <= dHi
    {
      var j :| 0 <= j < |rows| && rows[j] == latest[i];
      assert ss[i] == Station(pow10, rows[j], withZ);
    }
  }

  /** The reported floor of a device with scans is a most frequent one among the
      floors present, the latest such in row order on a tie, and 1 without any. */
  lemma LocateFloor<K>(pow10: Exp10, mac: K, rows: seq<ScanRow>, now: int, withZ: bool)
    requires |rows| > 0
    ensures var f := Locate(pow10, mac, rows, now, withZ).floor;
      && f.Some?
      && ((forall i :: 0 <= i < |rows| ==> rows[i].floor.None?) ==> f.value == 1)
      && ((exists i :: 0 <= i < |rows| && rows[i].floor.Some?) ==>
            f.value in FloorsOf(rows) && forall g :: Count(FloorsOf(rows), g) <= Count(FloorsOf(rows), f.value))
  {
    if exists i :: 0 <= i < |rows| && rows[i].floor.Some? {
      MajorityFloorIsMostFrequent(rows);
    }
  }

  // ---------------------------------------------------------------------------
  // GET ?mac=...

  datatype GetResponse = MissingMac | Found(location: Located<string>)

  /** `GET`: the `mac` query parameter is required and must not be empty (400);
      the rows stand for the route's query for that MAC. Stations carry no z. */
  function GetLocation(pow10: Exp10, mac: Option<string>, rows: seq<ScanRow>, now: int): (r: GetResponse)
    ensures r.MissingMac? <==> mac.None? || mac.value == ""
    ensures r.Found? ==> r.location.mac == mac.value
    ensures r.Found? && |rows| == 0 ==> r.location == NoScans(mac.value, now)
  {
    if mac.None? || mac.value == "" then MissingMac
    else Found(Locate(pow10, mac.value, rows, now, false))
  }

  /** The `GET` stations have no z, so the reported position has z = 0. */
  lemma GetLocationFlat(pow10: Exp10, mac: Option<string>, rows: seq<ScanRow>, now: int)
    ensures var r := GetLocation(pow10, mac, rows, now);
      r.Found? && r.location.position.Some? ==> r.location.position.value.z == 0.0
  {
    if |rows| > 0 {
      TrilaterateFlatStations(Stations(pow10, LatestPerEndpoint(rows), false));
    }
  }

  // ---------------------------------------------------------------------------
  // POST { macs: [...] }

  datatype PostResponse = BadRequest | ServerError | Locations(locations: seq<Located<Json>>)

  function MacOf(r: ScanRow): string
  {
    r.mac
  }

  /** `scansByMac.get(mac) || []`: a requested entry that is not a string finds
      no rows. */
  function RowsFor(groups: seq<Entry<seq<ScanRow>>>, mac: Json): seq<ScanRow>
  {
    if mac.JStr? then Get(groups, mac.s).GetOr([]) else []
  }

  /** `POST`: a null body throws while being destructured, which the handler's
      catch turns into a 500; otherwise `macs` must be an array with at least
      one entry (400). The rows stand for the route's one query over all
      requested MACs; they are grouped by MAC and every requested entry, as
      given (no lower-casing), gets its location, in request order, stations
      carrying `z || 0`. */
  function PostLocations(pow10: Exp10, body: Json, rows: seq<ScanRow>, now: int): (r: PostResponse)
    ensures r.ServerError? <==> body.JNull?
    ensures r.BadRequest? <==> !body.JNull? && !(Prop(body, "macs").Some? && Prop(body, "macs").value.JArr? && |Prop(body, "macs").value.items| > 0)
    ensures r.Locations? ==>
      var macs := Prop(body, "macs").value.items;
      && |r.locations| == |macs|
      && forall i :: 0 <= i < |macs| ==> r.locations[i].mac == macs[i]
  {
    var macs := Prop(body, "macs");
    if body.JNull? then ServerError
    else if !(macs.Some? && macs.value.JArr? && |macs.value.items| > 0) then BadRequest
    else
      var items := macs.value.items;
      var groups := GroupBy(rows, MacOf);
      Locations(seq(|items|, i requires 0 <= i < |items| => Locate(pow10, items[i], RowsFor(groups, items[i]), now, true)))
  }

  /** Every requested MAC is located from exactly its own rows, in their query
      order: entries that match no row (and entries that are not strings) get
      the no-scan answer. */
  lemma PostLocatesEachMac(pow10: Exp10, body: Json, rows: seq<ScanRow>, now: int, i: nat)
    requires PostLocations(pow10, body, rows, now).Locations?
    requires i < |Prop(body, "macs").value.items|
    ensures var mac := Prop(body, "macs").value.items[i];
      PostLocations(pow10, body, rows, now).locations[i] ==
        Locate(pow10, mac, if mac.JStr? then Select(rows, MacOf, mac.s) else [], now, true)
  {
    var mac := Prop(body, "macs").value.items[i];
    if mac.JStr? {
      GroupByGet(rows, MacOf, mac.s);
    }
  }
}
