/** The `all-devices` query route after its database queries: the per-device
    location (`calculateLocation`), the `GET` filter and sort, and the `POST`
    request check, MAC normalisation and per-MAC results. */
module AllDevices {
  import opened Wrappers
  import opened Weighted
  import opened Grouping
  import opened Localization
  import opened DeviceQuery
  import opened JsonValues
  import opened Text

  datatype Method = Trilateration | Centroid

  datatype DeviceLocation = DeviceLocation(
    mac: string,
    position: Option<Point>,
    floor: Option<int>,
    scansUsed: nat,
    accuracyEstimate: Option<real>,
    solver: Option<Method>,
    timestamp: int)

  /** `calculateLocation` on the rows its query returned (newest first). Stations
      carry `z || 0`; `now` is the time used for a device without scans. */
  function CalculateLocation(pow10: Exp10, mac: string, rows: seq<ScanRow>, now: int): (loc: DeviceLocation)
    ensures loc.mac == mac
    ensures |rows| == 0 ==> loc == DeviceLocation(mac, None, None, 0, None, None, now)
    ensures |rows| > 0 ==> loc.timestamp == rows[0].timestamp
    ensures loc.position.Some? <==> loc.scansUsed >= MinScans
    ensures loc.solver.Some? <==> loc.position.Some?
    ensures loc.accuracyEstimate.Some? <==> loc.position.Some?
    ensures loc.solver.Some? ==> loc.solver.value == Trilateration
  {
    if |rows| == 0 then DeviceLocation(mac, None, None, 0, None, None, now)
    else
      var latest := LatestPerEndpoint(rows);
      LatestPerEndpointCount(rows);
      var stations := Stations(pow10, latest, true);
      var position := Trilaterate(stations);
      var solver := if position.Some? then Some(if |stations| >= MinScans then Trilateration else Centroid) else None;
      DeviceLocation(mac, position, RoundedMeanFloor(latest), |stations|,
        if position.Some? then Some(MeanDistance(stations)) else None,
        solver, rows[0].timestamp)
  }

  /** `scans_used` is the number of distinct endpoints among the rows. */
  lemma ScansUsedCountsEndpoints(pow10: Exp10, mac: string, rows: seq<ScanRow>, now: int)
    ensures CalculateLocation(pow10, mac, rows, now).scansUsed == |GroupBy(rows, EndpointOf)|
  {
    LatestPerEndpointCount(rows);
  }

  /** Bounds a device's location inherits from its rows: a position inside every
      box holding all endpoints (z read as `z || 0`), an accuracy between the
      smallest and the largest distance, and a floor between the lowest and the
      highest endpoint floor. */
  lemma CalculateLocationBounds(pow10: Exp10, mac: string, rows: seq<ScanRow>, now: int,
                                lo: Point, hi: Point, dLo: real, dHi: real, fLo: int, fHi: int)
    requires forall i :: 0 <= i < |rows| ==> InBox(Point(rows[i].x, rows[i].y, ZValue(rows[i])), lo, hi)
    requires forall i :: 0 <= i < |rows| ==> dLo <= Distance(pow10, rows[i].rssi) <= dHi
    requires forall i :: 0 <= i < |rows| && rows[i].floor.Some? ==> fLo <= rows[i].floor.value <= fHi
    ensures var loc := CalculateLocation(pow10, mac, rows, now);
      && (loc.position.Some? ==> InBox(loc.position.value, lo, hi))
      && (loc.accuracyEstimate.Some? ==> dLo <= loc.accuracyEstimate.value <= dHi)
      && (loc.floor.Some? ==> fLo <= loc.floor.value <= fHi)
  {
    if |rows| > 0 {
      var latest := LatestPerEndpoint(rows);
      KeptRowsAreRows(rows);
      var stations := Stations(pow10, latest, true);
      TrilaterateWithinStations(stations, lo, hi);
      if |stations| > 0 {
        MeanDistanceWithin(stations, dLo, dHi);
      }
      RoundedMeanFloorWithin(latest, fLo, fHi);
    }
  }

  /** Every row kept as an endpoint's latest is one of the input rows. */
  lemma KeptRowsAreRows(rows: seq<ScanRow>)
    ensures forall i :: 0 <= i < |LatestPerEndpoint(rows)| ==> LatestPerEndpoint(rows)[i] in rows
  {
    var latest := LatestPerEndpoint(rows);
    LatestPerEndpointIsLatest(rows);
    forall i | 0 <= i < |latest| ensures latest[i] in rows {
      var j :| IsLatest(rows, EndpointOf, TimestampOf, latest[i].endpointId, j) && rows[j] == latest[i];
    }
  }

  /** The query joins every scan with its endpoint's single position row, so all
      rows of one endpoint carry the same floor. */
  predicate FloorPerEndpoint(rows: seq<ScanRow>)
  {
    forall i, j :: 0 <= i < |rows| && 0 <= j < |rows| && rows[i].endpointId == rows[j].endpointId ==>
      rows[i].floor == rows[j].floor
  }

  /** A device's floor is null exactly when none of its endpoints has a floor. */
  lemma FloorNullIffNoEndpointFloor(pow10: Exp10, mac: string, rows: seq<ScanRow>, now: int)
    requires FloorPerEndpoint(rows)
    ensures CalculateLocation(pow10, mac, rows, now).floor.None? <==>
      forall i :: 0 <= i < |rows| ==> rows[i].floor.None?
  {
    if |rows| > 0 {
      var latest := LatestPerEndpoint(rows);
      KeptRowsAreRows(rows);
      if j :| 0 <= j < |rows| && rows[j].floor.Some? {
        LatestPerEndpointCovers(rows, j);
        var i :| 0 <= i < |latest| && latest[i].endpointId == rows[j].endpointId;
        assert latest[i] in rows;
        assert latest[i].floor.Some?;
      }
    }
  }

  // ---------------------------------------------------------------------------
  // GET: located devices sorted by floor, then x

  /** The sort key: `floor || 0`, then `position.x || 0`. */
  function FloorKey(d: DeviceLocation): int
  {
    d.floor.GetOr(0)
  }

  function XKey(d: DeviceLocation): real
  {
    if d.position.Some? then d.position.value.x else 0.0
  }

  predicate KeyLe(a: DeviceLocation, b: DeviceLocation)
  {
    FloorKey(a) < FloorKey(b) || (FloorKey(a) == FloorKey(b) && XKey(a) <= XKey(b))
  }

  predicate SortedByKey(ds: seq<DeviceLocation>)
  {
    forall i, j :: 0 <= i < j < |ds| ==> KeyLe(ds[i], ds[j])
  }

  /** Two devices tie under the comparator exactly when their keys are equal. */
  datatype SortKey = SortKey(floor: int, x: real)

  function Key(d: DeviceLocation): SortKey
  {
    SortKey(FloorKey(d), XKey(d))
  }

  /** The devices of `ds` whose key is `k`, in their order in `ds`. A sort is
      stable when it leaves every one of these subsequences as it was. */
  function WithKey(ds: seq<DeviceLocation>, k: SortKey): seq<DeviceLocation>
  {
    if |ds| == 0 then []
    else (if Key(ds[0]) == k then [ds[0]] else []) + WithKey(ds[1..], k)
  }

  lemma {:induction false} WithKeyAppend(a: seq<DeviceLocation>, b: seq<DeviceLocation>, k: SortKey)
    ensures WithKey(a + b, k) == WithKey(a, k) + WithKey(b, k)
  {
    if |a| == 0 {
      assert a + b == b;
    } else {
      assert (a + b)[1..] == a[1..] + b;
      WithKeyAppend(a[1..], b, k);
    }
  }

  lemma {:induction false} WithKeyNone(ds: seq<DeviceLocation>, k: SortKey)
    ensures (forall i :: 0 <= i < |ds| ==> Key(ds[i]) != k) ==> WithKey(ds, k) == []
  {
    if |ds| > 0 {
      WithKeyNone(ds[1..], k);
    }
  }

  /** Inserts `d` after every element it does not precede strictly, so that
      `d` lands behind the devices whose key equals its own. */
  function Insert(d: DeviceLocation, ds: seq<DeviceLocation>): (r: seq<DeviceLocation>)
    requires SortedByKey(ds)
    ensures SortedByKey(r)
    ensures multiset(r) == multiset(ds) + multiset{d}
  {
    if |ds| == 0 then [d]
    else if !KeyLe(ds[0], d) then [d] + ds
    else
      var rest := Insert(d, ds[1..]);
      assert ds == [ds[0]] + ds[1..];
      HeadPrecedesInsert(d, ds, rest);
      [ds[0]] + rest
  }

  /** Insertion is stable: among the devices with `d`'s key, `d` comes last,
      and every other key's devices are left as they were. */
  lemma {:induction false} InsertStable(d: DeviceLocation, ds: seq<DeviceLocation>, k: SortKey)
    requires SortedByKey(ds)
    ensures WithKey(Insert(d, ds), k) == WithKey(ds, k) + (if Key(d) == k then [d] else [])
  {
    if |ds| == 0 {
      assert Insert(d, ds) == [d];
      assert [d][1..] == [];
    } else if !KeyLe(ds[0], d) {
      InsertStableFront(d, ds, k);
    } else {
      var rest := Insert(d, ds[1..]);
      InsertStable(d, ds[1..], k);
      assert Insert(d, ds) == [ds[0]] + rest;
      assert ([ds[0]] + rest)[1..] == rest;
    }
  }

  /** A device that strictly precedes the head shares its key with nobody in
      the list, so putting it in front is stable. */
  lemma InsertStableFront(d: DeviceLocation, ds: seq<DeviceLocation>, k: SortKey)
    requires |ds| > 0 && SortedByKey(ds) && !KeyLe(ds[0], d)
    ensures WithKey([d] + ds, k) == WithKey(ds, k) + (if Key(d) == k then [d] else [])
  {
    if Key(d) == k {
      forall i | 0 <= i < |ds| ensures Key(ds[i]) != k {
        if i > 0 {
          assert KeyLe(ds[0], ds[i]);
        }
      }
      WithKeyNone(ds, k);
    }
    assert ([d] + ds)[1..] == ds;
  }

  /** The head of a sorted list that `d` follows precedes everything that
      inserting `d` into the tail can produce. */
  lemma HeadPrecedesInsert(d: DeviceLocation, ds: seq<DeviceLocation>, rest: seq<DeviceLocation>)
    requires |ds| > 0 && SortedByKey(ds) && KeyLe(ds[0], d)
    requires multiset(rest) == multiset(ds[1..]) + multiset{d}
    ensures forall k :: 0 <= k < |rest| ==> KeyLe(ds[0], rest[k])
  {
    forall k | 0 <= k < |rest| ensures KeyLe(ds[0], rest[k]) {
      assert rest[k] in multiset(rest);
      if rest[k] != d {
        assert rest[k] in multiset(ds[1..]);
        var m :| 0 <= m < |ds[1..]| && ds[1..][m] == rest[k];
        assert ds[m + 1] == rest[k];
      }
    }
  }

  /** Insertion sort by the key. Like `Array.prototype.sort`, it is stable:
      devices with equal keys keep their input order. */
  function SortDevices(ds: seq<DeviceLocation>): (r: seq<DeviceLocation>)
    ensures SortedByKey(r)
    ensures multiset(r) == multiset(ds)
    ensures forall k :: WithKey(r, k) == WithKey(ds, k)
  {
    if |ds| == 0 then []
    else
      var init, last := ds[..|ds| - 1], ds[|ds| - 1];
      assert ds == init + [last];
      var r := Insert(last, SortDevices(init));
      SortStableStep(init, last, SortDevices(init), r);
      r
  }

  /** Appending one device to the input and inserting it into the sorted
      prefix change every key's subsequence alike. */
  lemma SortStableStep(init: seq<DeviceLocation>, last: DeviceLocation, sorted: seq<DeviceLocation>, r: seq<DeviceLocation>)
    requires SortedByKey(sorted) && r == Insert(last, sorted)
    requires forall k :: WithKey(sorted, k) == WithKey(init, k)
    ensures forall k :: WithKey(r, k) == WithKey(init + [last], k)
  {
    forall k ensures WithKey(r, k) == WithKey(init + [last], k) {
      InsertStable(last, sorted, k);
      WithKeyAppend(init, [last], k);
      assert [last][1..] == [];
    }
  }

  /** Inserting a device that follows every element appends it. */
  lemma {:induction false} InsertAfterAll(d: DeviceLocation, ds: seq<DeviceLocation>)
    requires SortedByKey(ds)
    ensures (forall i :: 0 <= i < |ds| ==> KeyLe(ds[i], d)) ==> Insert(d, ds) == ds + [d]
  {
    if |ds| > 0 && forall i :: 0 <= i < |ds| ==> KeyLe(ds[i], d) {
      assert forall i :: 0 <= i < |ds[1..]| ==> KeyLe(ds[1..][i], d) by {
        forall i | 0 <= i < |ds[1..]| ensures KeyLe(ds[1..][i], d) {
          assert ds[1..][i] == ds[i + 1];
        }
      }
      InsertAfterAll(d, ds[1..]);
      assert ds == [ds[0]] + ds[1..];
    }
  }

  /** Sorting a list that is already in key order changes nothing; in
      particular sorting is idempotent and ties are never swapped. */
  lemma {:induction false} SortSortedIsIdentity(ds: seq<DeviceLocation>)
    ensures SortedByKey(ds) ==> SortDevices(ds) == ds
  {
    if |ds| > 0 && SortedByKey(ds) {
      var init, last := ds[..|ds| - 1], ds[|ds| - 1];
      assert ds == init + [last];
      SortedSplit(init, last);
      SortSortedIsIdentity(init);
      assert SortDevices(ds) == Insert(last, init);
      InsertAfterAll(last, init);
    }
  }

  /** Dropping the last device of a sorted list leaves it sorted, and that
      device follows all the others. */
  lemma SortedSplit(init: seq<DeviceLocation>, last: DeviceLocation)
    requires SortedByKey(init + [last])
    ensures SortedByKey(init)
    ensures forall i :: 0 <= i < |init| ==> KeyLe(init[i], last)
  {
    var ds := init + [last];
    forall i | 0 <= i < |init| ensures KeyLe(init[i], last) {
      assert init[i] == ds[i] && last == ds[|init|];
    }
    forall i, j | 0 <= i < j < |init| ensures KeyLe(init[i], init[j]) {
      assert init[i] == ds[i] && init[j] == ds[j];
    }
  }

  /** The devices with a position, in their original order. */
  function Located(ds: seq<DeviceLocation>): (r: seq<DeviceLocation>)
    ensures forall d :: d in multiset(r) ==> d.position.Some?
    ensures forall d: DeviceLocation :: d.position.Some? ==> multiset(r)[d] == multiset(ds)[d]
  {
    if |ds| == 0 then []
    else
      assert ds == [ds[0]] + ds[1..];
      var rest := Located(ds[1..]);
      if ds[0].position.Some? then [ds[0]] + rest else rest
  }

  /** Filtering distributes over concatenation, so `Located` keeps the order of
      the devices it keeps. */
  lemma {:induction false} LocatedAppend(a: seq<DeviceLocation>, b: seq<DeviceLocation>)
    ensures Located(a + b) == Located(a) + Located(b)
  {
    if |a| == 0 {
      assert a + b == b;
    } else {
      assert (a + b)[0] == a[0];
      assert (a + b)[1..] == a[1..] + b;
      LocatedAppend(a[1..], b);
    }
  }

  /** One location per MAC, in order. */
  function Locations(pow10: Exp10, macs: seq<string>, rowsOf: string -> seq<ScanRow>, now: int): (ls: seq<DeviceLocation>)
    ensures |ls| == |macs|
    ensures forall i :: 0 <= i < |macs| ==> ls[i] == CalculateLocation(pow10, macs[i], rowsOf(macs[i]), now)
  {
    seq(|macs|, i requires 0 <= i < |macs| => CalculateLocation(pow10, macs[i], rowsOf(macs[i]), now))
  }

  /** The `GET` response's devices: one location per recently seen MAC (the
      distinct-MAC query's result, with `rowsOf` standing for the per-MAC
      query), only those with a position, sorted by floor and then x. */
  function GetDevices(pow10: Exp10, macs: seq<string>, rowsOf: string -> seq<ScanRow>, now: int): (r: seq<DeviceLocation>)
    ensures SortedByKey(r)
    ensures forall d :: d in r ==> d.position.Some? && d.solver == Some(Trilateration) && d.scansUsed >= MinScans
    ensures forall k :: WithKey(r, k) == WithKey(Located(Locations(pow10, macs, rowsOf, now)), k)
  {
    var all := Locations(pow10, macs, rowsOf, now);
    var r := SortDevices(Located(all));
    LocatedAreTrilaterated(pow10, macs, rowsOf, now, all, r);
    r
  }

  /** Every located device of the computed list was placed by trilateration
      from enough scans. */
  lemma LocatedAreTrilaterated(pow10: Exp10, macs: seq<string>, rowsOf: string -> seq<ScanRow>, now: int,
                               all: seq<DeviceLocation>, r: seq<DeviceLocation>)
    requires all == Locations(pow10, macs, rowsOf, now)
    requires multiset(r) == multiset(Located(all))
    ensures forall d :: d in r ==> d.position.Some? && d.solver == Some(Trilateration) && d.scansUsed >= MinScans
  {
    forall d | d in r ensures d.position.Some? && d.solver == Some(Trilateration) && d.scansUsed >= MinScans {
      assert d in multiset(Located(all));
      assert multiset(all)[d] > 0;
      assert d in all;
      var i :| 0 <= i < |all| && all[i] == d;
      assert d == CalculateLocation(pow10, macs[i], rowsOf(macs[i]), now);
    }
  }

  /** The `GET` list holds exactly the located devices, each as often as it
      was computed. */
  lemma GetDevicesAreLocated(pow10: Exp10, macs: seq<string>, rowsOf: string -> seq<ScanRow>, now: int)
    ensures forall d: DeviceLocation :: d.position.Some? ==>
      multiset(GetDevices(pow10, macs, rowsOf, now))[d] == multiset(Locations(pow10, macs, rowsOf, now))[d]
    ensures forall d :: d in GetDevices(pow10, macs, rowsOf, now) ==> d in Locations(pow10, macs, rowsOf, now)
  {
    var all := Locations(pow10, macs, rowsOf, now);
    var r := GetDevices(pow10, macs, rowsOf, now);
    assert multiset(r) == multiset(Located(all));
    forall d | d in r ensures d in all {
      assert d in multiset(r);
      assert d.position.Some?;
      assert multiset(all)[d] > 0;
    }
  }

  // ---------------------------------------------------------------------------
  // POST: explicit MAC list

  datatype PostResponse =
    | BadRequest
    | ServerError
    | Devices(devices: seq<DeviceLocation>)

  /** The route's check on `macs`: present, an array, and not empty. */
  predicate ValidMacList(macs: Option<Json>)
  {
    macs.Some? && macs.value.JArr? && |macs.value.items| > 0
  }

  predicate AllStrings(items: seq<Json>)
  {
    forall i :: 0 <= i < |items| ==> items[i].JStr?
  }

  /** `POST` with body `{ macs: [...] }`. A null body throws while being
      destructured (500); a missing, non-array or empty `macs` is a 400; a
      non-string entry throws in `toLowerCase` (500). Otherwise one location per
      requested MAC, lower-cased, in request order. */
  function PostDevices(pow10: Exp10, body: Json, rowsOf: string -> seq<ScanRow>, now: int): (r: PostResponse)
    ensures r.ServerError? <==> (body.JNull? || (ValidMacList(Prop(body, "macs")) && !AllStrings(Prop(body, "macs").value.items)))
    ensures r.BadRequest? <==> (!body.JNull? && !ValidMacList(Prop(body, "macs")))
    ensures r.Devices? ==>
      var items := Prop(body, "macs").value.items;
      && |r.devices| == |items|
      && forall i :: 0 <= i < |items| ==>
           r.devices[i] == CalculateLocation(pow10, Lower(items[i].s), rowsOf(Lower(items[i].s)), now)
           && r.devices[i].mac == Lower(items[i].s)
  {
    if body.JNull? then ServerError
    else
      var macs := Prop(body, "macs");
      if !Truthy(macs) || !macs.value.JArr? || |macs.value.items| == 0 then BadRequest
      else if !AllStrings(macs.value.items) then ServerError
      else
        var items := macs.value.items;
        Devices(seq(|items|, i requires 0 <= i < |items| =>
          CalculateLocation(pow10, Lower(items[i].s), rowsOf(Lower(items[i].s)), now)))
  }
}
