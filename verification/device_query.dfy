/** The post-query steps shared by the `all-devices` and `device-location`
    routes: one joined scan row per (scan, endpoint position), the latest row per
    endpoint, the stations handed to the solver, the mean distance, and the two
    ways a floor is picked (rounded mean and majority). */
module DeviceQuery {
  import opened Wrappers
  import opened Weighted
  import opened Grouping
  import opened Localization

  /** One row of the scans-joined-with-endpoint-positions query. Timestamps are
      milliseconds. */
  datatype ScanRow = ScanRow(
    endpointId: string,
    mac: string,
    rssi: int,
    timestamp: int,
    x: real,
    y: real,
    z: Option<real>,
    floor: Option<int>)

  function EndpointOf(r: ScanRow): string
  {
    r.endpointId
  }

  function TimestampOf(r: ScanRow): int
  {
    r.timestamp
  }

  // ---------------------------------------------------------------------------
  // Latest scan per endpoint

  /** The values of the `latestByEndpoint` map, in the map's insertion order. */
  function LatestPerEndpoint(rows: seq<ScanRow>): (latest: seq<ScanRow>)
    ensures |latest| == |LatestBy(rows, EndpointOf, TimestampOf)|
    ensures forall i :: 0 <= i < |latest| ==> latest[i] == LatestBy(rows, EndpointOf, TimestampOf)[i].value
  {
    var m := LatestBy(rows, EndpointOf, TimestampOf);
    seq(|m|, i requires 0 <= i < |m| => m[i].value)
  }

  /** Every endpoint of `rows` contributes exactly one row, in first-seen order,
      so `scans_used` is the number of distinct endpoints. */
  lemma LatestPerEndpointCount(rows: seq<ScanRow>)
    ensures |LatestPerEndpoint(rows)| == |GroupBy(rows, EndpointOf)|
    ensures |rows| > 0 ==> |LatestPerEndpoint(rows)| > 0
  {
    LatestByKeys(rows, EndpointOf, TimestampOf);
    assert |Keys(LatestBy(rows, EndpointOf, TimestampOf))| == |Keys(GroupBy(rows, EndpointOf))|;
    if |rows| > 0 {
      GroupByGroups(rows, EndpointOf);
      assert HasKey(GroupBy(rows, EndpointOf), rows[0].endpointId);
    }
  }

  /** Each kept row is its endpoint's latest row (the first of equally late
      ones), and no endpoint is kept twice. */
  lemma LatestPerEndpointIsLatest(rows: seq<ScanRow>)
    ensures forall i :: 0 <= i < |LatestPerEndpoint(rows)| ==>
      exists j :: IsLatest(rows, EndpointOf, TimestampOf, LatestPerEndpoint(rows)[i].endpointId, j)
               && rows[j] == LatestPerEndpoint(rows)[i]
    ensures forall i, j :: 0 <= i < j < |LatestPerEndpoint(rows)| ==>
      LatestPerEndpoint(rows)[i].endpointId != LatestPerEndpoint(rows)[j].endpointId
  {
    var m := LatestBy(rows, EndpointOf, TimestampOf);
    var latest := LatestPerEndpoint(rows);
    LatestByLatest(rows, EndpointOf, TimestampOf);
    KeptKeys(rows);
  }

  lemma KeptKeys(rows: seq<ScanRow>)
    ensures forall i :: 0 <= i < |LatestPerEndpoint(rows)| ==>
      LatestPerEndpoint(rows)[i].endpointId == LatestBy(rows, EndpointOf, TimestampOf)[i].key
  {
    var m := LatestBy(rows, EndpointOf, TimestampOf);
    var latest := LatestPerEndpoint(rows);
    LatestByLatest(rows, EndpointOf, TimestampOf);
    forall i | 0 <= i < |latest|
      ensures latest[i].endpointId == m[i].key
    {
      var j :| IsLatest(rows, EndpointOf, TimestampOf, m[i].key, j) && rows[j] == m[i].value;
    }
  }

  /** No endpoint of the input is missing from the kept rows. */
  lemma LatestPerEndpointCovers(rows: seq<ScanRow>, j: int)
    requires 0 <= j < |rows|
    ensures exists i :: 0 <= i < |LatestPerEndpoint(rows)| && LatestPerEndpoint(rows)[i].endpointId == rows[j].endpointId
  {
    var m := LatestBy(rows, EndpointOf, TimestampOf);
    LatestByKeys(rows, EndpointOf, TimestampOf);
    GroupByGroups(rows, EndpointOf);
    KeptKeys(rows);
    assert FirstIndex(rows, EndpointOf, EndpointOf(rows[j])) <= j;
    assert rows[j].endpointId in Keys(m);
    var i :| 0 <= i < |Keys(m)| && Keys(m)[i] == rows[j].endpointId;
    assert LatestPerEndpoint(rows)[i].endpointId == rows[j].endpointId;
  }

  // ---------------------------------------------------------------------------
  // Stations for the solver

  /** `scan.z || 0`. */
  function ZValue(r: ScanRow): real
  {
    r.z.GetOr(0.0)
  }

  /** A row as a solver input. With `withZ` the position carries `z || 0`;
      without it the position has no z at all. */
  function Station(pow10: Exp10, r: ScanRow, withZ: bool): (s: ScanWithDistance)
    ensures s.endpointId == r.endpointId && s.rssi == r.rssi
    ensures s.distance == Distance(pow10, r.rssi)
    ensures s.position.x == r.x && s.position.y == r.y
    ensures withZ <==> s.position.z.Some?
    ensures withZ ==> s.position.z.value == ZValue(r)
  {
    ScanWithDistance(r.endpointId, r.rssi, Distance(pow10, r.rssi),
      Position(r.x, r.y, if withZ then Some(ZValue(r)) else None))
  }

  function Stations(pow10: Exp10, rows: seq<ScanRow>, withZ: bool): (ss: seq<ScanWithDistance>)
    ensures |ss| == |rows|
    ensures forall i :: 0 <= i < |rows| ==> ss[i] == Station(pow10, rows[i], withZ)
  {
    seq(|rows|, i requires 0 <= i < |rows| => Station(pow10, rows[i], withZ))
  }

  function Distances(ss: seq<ScanWithDistance>): (ds: seq<real>)
    ensures |ds| == |ss|
    ensures forall i :: 0 <= i < |ss| ==> ds[i] == ss[i].distance
  {
    seq(|ss|, i requires 0 <= i < |ss| => ss[i].distance)
  }

  /** The accuracy estimate: the mean distance to the stations. */
  function MeanDistance(ss: seq<ScanWithDistance>): real
    requires |ss| > 0
  {
    Sum(Distances(ss)) / (|ss| as real)
  }

  /** The mean distance lies between the smallest and the largest distance. */
  lemma MeanDistanceWithin(ss: seq<ScanWithDistance>, lo: real, hi: real)
    requires |ss| > 0
    requires forall i :: 0 <= i < |ss| ==> lo <= ss[i].distance <= hi
    ensures lo <= MeanDistance(ss) <= hi
  {
    MeanOfWithin(Distances(ss), lo, hi);
  }

  // ---------------------------------------------------------------------------
  // Floors

  /** `Math.round`: the nearest integer, halves rounded up. */
  function Round(x: real): (k: int)
    ensures x - 0.5 < k as real <= x + 0.5
  {
    (x + 0.5).Floor
  }

  /** `Math.round` is the only integer within half a unit (upper end inclusive). */
  lemma RoundUnique(x: real, k: int)
    requires x - 0.5 < k as real <= x + 0.5
    ensures k == Round(x)
  {
  }

  /** The non-null floors of the rows, in order. */
  function FloorsOf(rows: seq<ScanRow>): (fs: seq<int>)
    ensures |fs| <= |rows|
    ensures |fs| == 0 <==> forall i :: 0 <= i < |rows| ==> rows[i].floor.None?
    ensures forall f :: f in fs <==> exists i :: 0 <= i < |rows| && rows[i].floor == Some(f)
  {
    if |rows| == 0 then []
    else
      var rest := FloorsOf(rows[1..]);
      assert forall i :: 1 <= i < |rows| ==> rows[i] == rows[1..][i - 1];
      if rows[0].floor.Some? then [rows[0].floor.value] + rest else rest
  }

  function IntSum(fs: seq<int>): int
  {
    if |fs| == 0 then 0 else fs[0] + IntSum(fs[1..])
  }

  /** `Math.round(sum / count)` of the non-null floors, or `None` without any. */
  function RoundedMeanFloor(rows: seq<ScanRow>): (f: Option<int>)
    ensures f.None? <==> forall i :: 0 <= i < |rows| ==> rows[i].floor.None?
  {
    var fs := FloorsOf(rows);
    if |fs| == 0 then None else Some(Round(IntSum(fs) as real / (|fs| as real)))
  }

  /** The rounded mean floor lies between the lowest and the highest floor. */
  lemma RoundedMeanFloorWithin(rows: seq<ScanRow>, lo: int, hi: int)
    requires forall i :: 0 <= i < |rows| && rows[i].floor.Some? ==> lo <= rows[i].floor.value <= hi
    ensures RoundedMeanFloor(rows).Some? ==> lo <= RoundedMeanFloor(rows).value <= hi
  {
    var fs := FloorsOf(rows);
    if |fs| > 0 {
      forall i | 0 <= i < |fs| ensures lo <= fs[i] <= hi {
        assert fs[i] in fs;
      }
      IntMeanWithin(fs, lo, hi);
      RoundWithin(IntSum(fs) as real / (|fs| as real), lo, hi);
    }
  }

  lemma IntMeanWithin(fs: seq<int>, lo: int, hi: int)
    requires |fs| > 0
    requires forall i :: 0 <= i < |fs| ==> lo <= fs[i] <= hi
    ensures lo as real <= IntSum(fs) as real / (|fs| as real) <= hi as real
  {
    IntSumBounds(fs, lo, hi);
    var n := |fs| as real;
    ScaleToReal(|fs|, lo);
    ScaleToReal(|fs|, hi);
    MeanWithin(n, IntSum(fs) as real, lo as real, hi as real);
  }

  lemma ScaleToReal(n: nat, v: int)
    ensures (n * v) as real == v as real * (n as real)
  {
  }

  /** Rounding a value between two integers stays between them. */
  lemma RoundWithin(x: real, lo: int, hi: int)
    requires lo as real <= x <= hi as real
    ensures lo <= Round(x) <= hi
  {
  }

  lemma {:induction false} IntSumBounds(fs: seq<int>, lo: int, hi: int)
    requires forall i :: 0 <= i < |fs| ==> lo <= fs[i] <= hi
    ensures |fs| * lo <= IntSum(fs) <= |fs| * hi
  {
    if |fs| > 0 {
      IntSumBounds(fs[1..], lo, hi);
    }
  }

  /** How often `v` occurs in `fs`. */
  function Count(fs: seq<int>, v: int): nat
  {
    multiset(fs)[v]
  }

  /** The index of the last element of `fs[..n]` whose count in `fs` is the
      largest: the element `pop()` returns after the stable sort by count. */
  function LastMostFrequentIndex(fs: seq<int>, n: nat): (j: nat)
    requires 0 < n <= |fs|
    ensures j < n
    ensures forall i :: 0 <= i < n ==> Count(fs, fs[i]) <= Count(fs, fs[j])
    ensures forall i :: j < i < n ==> Count(fs, fs[i]) < Count(fs, fs[j])
  {
    if n == 1 then 0
    else
      var b := LastMostFrequentIndex(fs, n - 1);
      if Count(fs, fs[n - 1]) >= Count(fs, fs[b]) then n - 1 else b
  }

  /** `floors.sort((a, b) => count(a) - count(b)).pop()`, or 1 without any
      non-null floor. */
  function MajorityFloor(rows: seq<ScanRow>): (f: int)
    ensures (forall i :: 0 <= i < |rows| ==> rows[i].floor.None?) ==> f == 1
  {
    var fs := FloorsOf(rows);
    if |fs| == 0 then 1 else fs[LastMostFrequentIndex(fs, |fs|)]
  }

  /** The majority floor occurs among the rows' floors at least as often as any
      other floor; among equally frequent floors it is the one whose last
      occurrence comes latest. */
  lemma MajorityFloorIsMostFrequent(rows: seq<ScanRow>)
    requires exists i :: 0 <= i < |rows| && rows[i].floor.Some?
    ensures MajorityFloor(rows) in FloorsOf(rows)
    ensures forall g :: Count(FloorsOf(rows), g) <= Count(FloorsOf(rows), MajorityFloor(rows))
    ensures forall i :: (0 <= i < |FloorsOf(rows)| && FloorsOf(rows)[i] != MajorityFloor(rows)
      && Count(FloorsOf(rows), FloorsOf(rows)[i]) == Count(FloorsOf(rows), MajorityFloor(rows))) ==>
      exists k :: i < k < |FloorsOf(rows)| && FloorsOf(rows)[k] == MajorityFloor(rows)
  {
    var fs := FloorsOf(rows);
    var j := LastMostFrequentIndex(fs, |fs|);
    forall g ensures Count(fs, g) <= Count(fs, fs[j]) {
      if g in fs {
        var i :| 0 <= i < |fs| && fs[i] == g;
      }
    }
    forall i | 0 <= i < |fs| && fs[i] != fs[j] && Count(fs, fs[i]) == Count(fs, fs[j])
      ensures exists k :: i < k < |fs| && fs[k] == fs[j]
    {
      assert i < j;
    }
  }
}
