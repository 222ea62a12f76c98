/** The `heatmap-data` query route after its database query: rows are grouped by
    device, each device with at least three positioned endpoints is located with
    the trilateration solver, and becomes one heat point whose intensity comes
    from the strongest RSSI seen. */
module HeatmapData {
  import opened Wrappers
  import opened Grouping
  import opened Localization
  import opened DeviceQuery

  /** One row of the latest-scan-per-(device, endpoint) query. The endpoint's
      coordinates come from a left join and may be null. */
  datatype HeatRow = HeatRow(mac: string, rssi: int, timestamp: int, endpointId: string, x: Option<real>, y: Option<real>)

  datatype HeatPoint = HeatPoint(x: int, y: int, value: int, mac: string, rssi: int, timestamp: int, endpointCount: nat)

  /** The response's `data` object: the scale bounds and the points. */
  datatype HeatmapPayload = HeatmapPayload(count: nat, max: int, min: int, data: seq<HeatPoint>)

  /** Upper end of the intensity scale. */
  const ScaleMax: int := 100
  /** Lower end of the intensity scale. */
  const ScaleMin: int := 0

  function MacOf(r: HeatRow): string
  {
    r.mac
  }

  predicate Positioned(r: HeatRow)
  {
    r.x.Some? && r.y.Some?
  }

  /** The rows whose endpoint has both coordinates, in order. */
  function PositionedRows(rows: seq<HeatRow>): (ps: seq<HeatRow>)
    ensures |ps| <= |rows|
    ensures forall i :: 0 <= i < |ps| ==> Positioned(ps[i])
    ensures forall r :: r in ps <==> r in rows && Positioned(r)
    ensures forall r :: multiset(ps)[r] == if Positioned(r) then multiset(rows)[r] else 0
  {
    if |rows| == 0 then []
    else
      var rest := PositionedRows(rows[1..]);
      assert rows == [rows[0]] + rows[1..];
      if Positioned(rows[0]) then [rows[0]] + rest else rest
  }

  /** The filter distributes over concatenation, so the kept rows stay in
      their query order. */
  lemma {:induction false} PositionedRowsAppend(a: seq<HeatRow>, b: seq<HeatRow>)
    ensures PositionedRows(a + b) == PositionedRows(a) + PositionedRows(b)
  {
    if |a| == 0 {
      assert a + b == b;
    } else {
      assert (a + b)[0] == a[0];
      assert (a + b)[1..] == a[1..] + b;
      PositionedRowsAppend(a[1..], b);
    }
  }

  /** A positioned row as a solver input; the position has no z. */
  function HeatStation(pow10: Exp10, r: HeatRow): ScanWithDistance
    requires Positioned(r)
  {
    ScanWithDistance(r.endpointId, r.rssi, Distance(pow10, r.rssi), Position(r.x.value, r.y.value, None))
  }

  function HeatStations(pow10: Exp10, rows: seq<HeatRow>): (ss: seq<ScanWithDistance>)
    requires forall i :: 0 <= i < |rows| ==> Positioned(rows[i])
    ensures |ss| == |rows|
    ensures forall i :: 0 <= i < |rows| ==> ss[i] == HeatStation(pow10, rows[i])
  {
    seq(|rows|, i requires 0 <= i < |rows| => HeatStation(pow10, rows[i]))
  }

  /** `Math.max(...xs)` over a non-empty list. */
  function MaxOf(xs: seq<int>): (m: int)
    requires |xs| > 0
    ensures m in xs
    ensures forall i :: 0 <= i < |xs| ==> xs[i] <= m
  {
    if |xs| == 1 then xs[0]
    else
      var rest := MaxOf(xs[1..]);
      assert rest in xs;
      if xs[0] >= rest then xs[0] else rest
  }

  function RssisOf(rows: seq<HeatRow>): (xs: seq<int>)
    ensures |xs| == |rows| && forall i :: 0 <= i < |rows| ==> xs[i] == rows[i].rssi
  {
    seq(|rows|, i requires 0 <= i < |rows| => rows[i].rssi)
  }

  function TimestampsOf(rows: seq<HeatRow>): (xs: seq<int>)
    ensures |xs| == |rows| && forall i :: 0 <= i < |rows| ==> xs[i] == rows[i].timestamp
  {
    seq(|rows|, i requires 0 <= i < |rows| => rows[i].timestamp)
  }

  /** `Math.max(0, 100 + maxRssi)`. */
  function Intensity(maxRssi: int): (v: int)
    ensures v >= ScaleMin
    ensures maxRssi <= 0 ==> v <= ScaleMax
    ensures maxRssi >= -100 ==> v == 100 + maxRssi
  {
    if 100 + maxRssi > 0 then 100 + maxRssi else 0
  }

  /** The heat point of one device's rows, or `None` below three positioned
      endpoints. */
  function PointFor(pow10: Exp10, mac: string, rows: seq<HeatRow>): (p: Option<HeatPoint>)
  {
    var positioned := PositionedRows(rows);
    if |positioned| < MinScans then None
    else
      var position := Trilaterate(HeatStations(pow10, positioned));
      var maxRssi := MaxOf(RssisOf(rows));
      Some(HeatPoint(Round(position.value.x), Round(position.value.y), Intensity(maxRssi), mac,
                     maxRssi, MaxOf(TimestampsOf(rows)), |positioned|))
  }

  /** What a device's heat point says about its rows: it exists exactly with three
      or more positioned rows, counts them, reports the strongest RSSI over all
      of the rows (positioned or not) and their latest timestamp, and places the
      device at the rounded solver position. */
  lemma PointForFacts(pow10: Exp10, mac: string, rows: seq<HeatRow>)
    ensures PointFor(pow10, mac, rows).Some? <==> |PositionedRows(rows)| >= MinScans
    ensures PointFor(pow10, mac, rows).Some? ==>
      var p := PointFor(pow10, mac, rows).value;
      var position := Trilaterate(HeatStations(pow10, PositionedRows(rows)));
      && p.mac == mac
      && p.endpointCount == |PositionedRows(rows)|
      && (exists i :: 0 <= i < |rows| && rows[i].rssi == p.rssi)
      && (forall i :: 0 <= i < |rows| ==> rows[i].rssi <= p.rssi)
      && (forall i :: 0 <= i < |rows| ==> rows[i].timestamp <= p.timestamp)
      && p.value >= ScaleMin
      && ((forall i :: 0 <= i < |rows| ==> rows[i].rssi <= 0) ==> p.value <= ScaleMax)
      && position.Some?
      && p.x == Round(position.value.x) && p.y == Round(position.value.y)
  {
    var positioned := PositionedRows(rows);
    if |positioned| >= MinScans {
      var p := PointFor(pow10, mac, rows).value;
      var k :| 0 <= k < |rows| && RssisOf(rows)[k] == p.rssi;
      assert 0 <= k < |rows| && rows[k].rssi == p.rssi;
    }
  }

  /** The heat point (if any) of each group, in group order. */
  function GroupPoints(pow10: Exp10, groups: seq<Entry<seq<HeatRow>>>): (ps: seq<Option<HeatPoint>>)
    ensures |ps| == |groups|
    ensures forall i :: 0 <= i < |groups| ==> ps[i] == PointFor(pow10, groups[i].key, groups[i].value)
  {
    seq(|groups|, i requires 0 <= i < |groups| => PointFor(pow10, groups[i].key, groups[i].value))
  }

  /** The present values of a list of options, in order. */
  function Present<T>(os: seq<Option<T>>): seq<T>
  {
    if |os| == 0 then []
    else Present(os[..|os| - 1]) + (if os[|os| - 1].Some? then [os[|os| - 1].value] else [])
  }

  /** Every present value comes from some position, and every position with a
      value contributes it, in order. */
  lemma {:induction false} PresentFacts<T>(os: seq<Option<T>>)
    ensures forall x :: x in Present(os) ==> exists i :: 0 <= i < |os| && os[i] == Some(x)
    ensures forall i :: 0 <= i < |os| && os[i].Some? ==> os[i].value in Present(os)
  {
    if |os| > 0 {
      var prefix := os[..|os| - 1];
      PresentFacts(prefix);
      forall x | x in Present(os) ensures exists i :: 0 <= i < |os| && os[i] == Some(x) {
        if x in Present(prefix) {
          var i :| 0 <= i < |prefix| && prefix[i] == Some(x);
          assert os[i] == Some(x);
        }
      }
      forall i | 0 <= i < |os| && os[i].Some? ensures os[i].value in Present(os) {
        if i < |prefix| {
          assert prefix[i] == os[i];
        }
      }
    }
  }

  /** If the positions holding values carry distinct labels, so do the values. */
  lemma {:induction false} PresentDistinct<T>(os: seq<Option<T>>, tag: T -> string)
    requires forall i, j :: 0 <= i < j < |os| && os[i].Some? && os[j].Some? ==> tag(os[i].value) != tag(os[j].value)
    ensures forall a, b :: 0 <= a < b < |Present(os)| ==> tag(Present(os)[a]) != tag(Present(os)[b])
  {
    if |os| > 0 {
      var prefix := os[..|os| - 1];
      PresentDistinct(prefix, tag);
      PresentFacts(prefix);
      var last := os[|os| - 1];
      if last.Some? {
        var ps0 := Present(prefix);
        forall a | 0 <= a < |ps0| ensures tag(ps0[a]) != tag(last.value) {
          assert ps0[a] in ps0;
          var i :| 0 <= i < |prefix| && prefix[i] == Some(ps0[a]);
          assert os[i] == prefix[i];
        }
      }
    }
  }

  function PointMac(p: HeatPoint): string
  {
    p.mac
  }

  /** The route's payload: `count` points on a fixed 0..100 scale. */
  function Heatmap(pow10: Exp10, rows: seq<HeatRow>): (r: HeatmapPayload)
    ensures r.count == |r.data|
    ensures r.max == ScaleMax && r.min == ScaleMin
  {
    var points := Present(GroupPoints(pow10, GroupBy(rows, MacOf)));
    HeatmapPayload(|points|, ScaleMax, ScaleMin, points)
  }

  /** A device gets a heat point exactly when at least three of its rows are
      positioned, and then exactly one; every row lands in the group of its own
      device. */
  lemma HeatmapPerDevice(pow10: Exp10, rows: seq<HeatRow>, mac: string)
    requires exists i :: 0 <= i < |rows| && rows[i].mac == mac
    ensures (exists p :: p in Heatmap(pow10, rows).data && p.mac == mac)
        <==> |PositionedRows(Select(rows, MacOf, mac))| >= MinScans
    ensures forall a, b :: 0 <= a < b < |Heatmap(pow10, rows).data| ==>
      Heatmap(pow10, rows).data[a].mac != Heatmap(pow10, rows).data[b].mac
  {
    HeatmapMacsDistinct(pow10, rows);
    var groups := GroupBy(rows, MacOf);
    var gp := GroupPoints(pow10, groups);
    GroupByGroups(rows, MacOf);
    var j :| 0 <= j < |rows| && rows[j].mac == mac;
    assert FirstIndex(rows, MacOf, mac) <= j;
    assert mac in Keys(groups);
    var g :| 0 <= g < |groups| && Keys(groups)[g] == mac;
    assert groups[g].value == Select(rows, MacOf, mac);
    HeatmapPointOfGroup(pow10, groups, g);
  }

  /** No two heat points share a MAC. */
  lemma HeatmapMacsDistinct(pow10: Exp10, rows: seq<HeatRow>)
    ensures forall a, b :: 0 <= a < b < |Heatmap(pow10, rows).data| ==>
      Heatmap(pow10, rows).data[a].mac != Heatmap(pow10, rows).data[b].mac
  {
    var groups := GroupBy(rows, MacOf);
    var gp := GroupPoints(pow10, groups);
    GroupByGroups(rows, MacOf);
    forall i, j | 0 <= i < j < |gp| && gp[i].Some? && gp[j].Some?
      ensures PointMac(gp[i].value) != PointMac(gp[j].value)
    {
      PointForFacts(pow10, groups[i].key, groups[i].value);
      PointForFacts(pow10, groups[j].key, groups[j].value);
    }
    PresentDistinct(gp, PointMac);
  }

  /** Group `g`, of distinct-keyed groups, has a heat point among the points
      of all groups exactly when it has enough positioned rows. */
  lemma HeatmapPointOfGroup(pow10: Exp10, groups: seq<Entry<seq<HeatRow>>>, g: int)
    requires DistinctKeys(groups) && 0 <= g < |groups|
    ensures (exists p :: p in Present(GroupPoints(pow10, groups)) && p.mac == groups[g].key)
        <==> |PositionedRows(groups[g].value)| >= MinScans
  {
    var data := Present(GroupPoints(pow10, groups));
    var gp := GroupPoints(pow10, groups);
    var mac := groups[g].key;
    PresentFacts(gp);
    PointForFacts(pow10, mac, groups[g].value);
    if exists p :: p in data && p.mac == mac {
      var p :| p in data && p.mac == mac;
      var i :| 0 <= i < |gp| && gp[i] == Some(p);
      PointForFacts(pow10, groups[i].key, groups[i].value);
      assert groups[i].key == mac;
      assert i == g;
    }
    if |PositionedRows(groups[g].value)| >= MinScans {
      assert gp[g].Some? && gp[g].value in data;
    }
  }

}
