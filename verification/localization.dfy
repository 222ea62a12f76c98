/** The localization library: RSSI-to-distance conversion, the weighted-centroid
    trilateration solver, the unused least-squares solver, the plain centroid,
    recency filtering and position averaging. Coordinates are exact reals. */
module Localization {
  import opened Wrappers
  import opened Weighted

  /** `x < y`, named so that monotonicity of `Exp10` is only instantiated where
      a proof asks for it. */
  predicate Below(x: real, y: real)
  {
    x < y
  }

  /** `Math.pow(10, x)`, known only through the facts the proofs rely on:
      10^0 = 1, it is positive, and it is strictly increasing. */
  type Exp10 = f: real -> real | f(0.0) == 1.0 && (forall x :: f(x) > 0.0)
    && (forall x, y {:trigger Below(x, y)} :: Below(x, y) ==> f(x) < f(y))
    witness (Exp10ModelIsExp10(); Exp10Model)

  /** One function with the three properties, showing that `Exp10` is inhabited. */
  function Exp10Model(x: real): real
  {
    if x >= 0.0 then 1.0 + x else 1.0 / (1.0 - x)
  }

  lemma Exp10ModelIsExp10()
    ensures Exp10Model(0.0) == 1.0
    ensures forall x :: Exp10Model(x) > 0.0
    ensures forall x, y {:trigger Below(x, y)} :: Below(x, y) ==> Exp10Model(x) < Exp10Model(y)
  {
    forall x, y | Below(x, y)
      ensures Exp10Model(x) < Exp10Model(y)
    {
      assert x < y;
      if y < 0.0 {
        ReciprocalDecreasing(1.0 - x, 1.0 - y);
      } else if x < 0.0 {
        assert 1.0 / (1.0 - x) < 1.0;
      }
    }
  }

  lemma ReciprocalDecreasing(a: real, b: real)
    requires a > b > 0.0
    ensures 1.0 / a < 1.0 / b
  {
    assert (1.0 / a) * a == 1.0;
    assert (1.0 / b) * b == 1.0;
  }

  /** A station position; `z` is optional. */
  datatype Position = Position(x: real, y: real, z: Option<real>)

  /** A solver result: all three coordinates present. */
  datatype Point = Point(x: real, y: real, z: real)

  datatype ScanWithDistance = ScanWithDistance(endpointId: string, rssi: int, distance: real, position: Position)

  /** Transmit power at one metre, in dBm. */
  const DefaultTxPower: real := -59.0
  /** Indoor path-loss exponent. */
  const DefaultPathLossExponent: real := 2.5
  /** Returned instead of a distance when the RSSI is 0. */
  const InvalidDistance: real := -1.0
  /** Added to the squared distance so that a zero distance has a finite weight. */
  const SquaredDistanceOffset: real := 0.01
  /** Added to the distance by the inverse-distance centroid. */
  const DistanceOffset: real := 0.1
  /** Below this absolute determinant the normal equations count as singular. */
  const SingularDeterminant: real := 0.0000000001

  // ---------------------------------------------------------------------------
  // Distance estimation

  /** The log-distance path-loss model d = 10^((txPower - rssi) / (10 n)). */
  function RssiToDistance(pow10: Exp10, rssi: int, txPower: real, pathLossExponent: real): (d: real)
    requires pathLossExponent != 0.0
    ensures rssi == 0 <==> d == InvalidDistance
    ensures rssi != 0 ==> d > 0.0
    ensures rssi != 0 && rssi as real == txPower ==> d == 1.0
  {
    if rssi == 0 then InvalidDistance
    else pow10((txPower - rssi as real) / (10.0 * pathLossExponent))
  }

  /** The distance with the default calibration, as every caller uses it. */
  function Distance(pow10: Exp10, rssi: int): (d: real)
  {
    RssiToDistance(pow10, rssi, DefaultTxPower, DefaultPathLossExponent)
  }

  /** A stronger (larger) non-zero RSSI never gives a larger distance, and a
      strictly stronger one gives a strictly smaller distance. */
  lemma StrongerSignalIsCloser(pow10: Exp10, weaker: int, stronger: int, txPower: real, pathLossExponent: real)
    requires pathLossExponent > 0.0
    requires weaker != 0 && stronger != 0 && weaker <= stronger
    ensures RssiToDistance(pow10, stronger, txPower, pathLossExponent)
         <= RssiToDistance(pow10, weaker, txPower, pathLossExponent)
    ensures weaker < stronger ==>
      RssiToDistance(pow10, stronger, txPower, pathLossExponent)
      < RssiToDistance(pow10, weaker, txPower, pathLossExponent)
  {
    var k := 10.0 * pathLossExponent;
    var near := DistanceExponent(stronger, txPower, pathLossExponent);
    var far := DistanceExponent(weaker, txPower, pathLossExponent);
    if weaker < stronger {
      DivideStrict(txPower - stronger as real, txPower - weaker as real, k);
      assert Below(near, far);
    }
  }

  /** The exponent of ten in the path-loss model. */
  function DistanceExponent(rssi: int, txPower: real, pathLossExponent: real): (e: real)
    requires pathLossExponent != 0.0
    ensures forall pow10: Exp10 :: rssi != 0 ==> RssiToDistance(pow10, rssi, txPower, pathLossExponent) == pow10(e)
  {
    (txPower - rssi as real) / (10.0 * pathLossExponent)
  }

  lemma DivideStrict(a: real, b: real, k: real)
    requires k > 0.0 && a < b
    ensures a / k < b / k
  {
    assert b / k - a / k == (b - a) / k;
  }

  // ---------------------------------------------------------------------------
  // Coordinates and weights

  /** `position.z || 0`: a missing z counts as 0. */
  function ZOrZero(p: Position): real
  {
    p.z.GetOr(0.0)
  }

  /** The three coordinates a solver averages, with a missing z read as 0. */
  function Coords(p: Position): Point
  {
    Point(p.x, p.y, ZOrZero(p))
  }

  predicate InBox(p: Point, lo: Point, hi: Point)
  {
    lo.x <= p.x <= hi.x && lo.y <= p.y <= hi.y && lo.z <= p.z <= hi.z
  }

  function PositionsOf(scans: seq<ScanWithDistance>): (ps: seq<Position>)
    ensures |ps| == |scans|
    ensures forall i :: 0 <= i < |scans| ==> ps[i] == scans[i].position
  {
    seq(|scans|, i requires 0 <= i < |scans| => scans[i].position)
  }

  function Xs(ps: seq<Position>): (vs: seq<real>)
    ensures |vs| == |ps| && forall i :: 0 <= i < |ps| ==> vs[i] == ps[i].x
  {
    seq(|ps|, i requires 0 <= i < |ps| => ps[i].x)
  }

  function Ys(ps: seq<Position>): (vs: seq<real>)
    ensures |vs| == |ps| && forall i :: 0 <= i < |ps| ==> vs[i] == ps[i].y
  {
    seq(|ps|, i requires 0 <= i < |ps| => ps[i].y)
  }

  function Zs(ps: seq<Position>): (vs: seq<real>)
    ensures |vs| == |ps| && forall i :: 0 <= i < |ps| ==> vs[i] == ZOrZero(ps[i])
  {
    seq(|ps|, i requires 0 <= i < |ps| => ZOrZero(ps[i]))
  }

  /** The weight 1 / (d^2 + 0.01) of the trilateration solver. */
  function InverseSquareWeight(d: real): (w: real)
    ensures w > 0.0
  {
    1.0 / (d * d + SquaredDistanceOffset)
  }

  function InverseSquareWeights(scans: seq<ScanWithDistance>): (ws: seq<real>)
    ensures |ws| == |scans|
    ensures forall i :: 0 <= i < |scans| ==> ws[i] == InverseSquareWeight(scans[i].distance)
    ensures AllPositive(ws)
  {
    seq(|scans|, i requires 0 <= i < |scans| => InverseSquareWeight(scans[i].distance))
  }

  /** Sum of w_i * p_i divided by the sum of w_i, per coordinate; `None` when the
      total weight is 0, where the source divides by zero. */
  function WeightedCentroid(ps: seq<Position>, ws: seq<real>): (r: Option<Point>)
    requires |ws| == |ps|
    ensures r.None? <==> Sum(ws) == 0.0
  {
    var total := Sum(ws);
    if total == 0.0 then None
    else Some(Point(Dot(ws, Xs(ps)) / total, Dot(ws, Ys(ps)) / total, Dot(ws, Zs(ps)) / total))
  }

  /** Every positively weighted centroid of positions inside a box is inside it. */
  lemma CentroidInBox(ps: seq<Position>, ws: seq<real>, lo: Point, hi: Point)
    requires |ws| == |ps| && |ps| > 0 && AllPositive(ws)
    requires forall i :: 0 <= i < |ps| ==> InBox(Coords(ps[i]), lo, hi)
    ensures WeightedCentroid(ps, ws).Some?
    ensures InBox(WeightedCentroid(ps, ws).value, lo, hi)
  {
    assert AllWithin(Xs(ps), lo.x, hi.x) && AllWithin(Ys(ps), lo.y, hi.y) && AllWithin(Zs(ps), lo.z, hi.z) by {
      forall i | 0 <= i < |ps|
        ensures lo.x <= Xs(ps)[i] <= hi.x && lo.y <= Ys(ps)[i] <= hi.y && lo.z <= Zs(ps)[i] <= hi.z
      {
        assert InBox(Coords(ps[i]), lo, hi);
      }
    }
    WeightedMeanWithin(ws, Xs(ps), lo.x, hi.x);
    WeightedMeanWithin(ws, Ys(ps), lo.y, hi.y);
    WeightedMeanWithin(ws, Zs(ps), lo.z, hi.z);
  }

  // ---------------------------------------------------------------------------
  // Trilateration (the live solver)

  /** Minimum number of scans the solver accepts. */
  const MinScans: nat := 3

  /** Inverse-squared-distance weighted centroid of the stations; `None` below
      three scans. */
  function Trilaterate(scans: seq<ScanWithDistance>): (r: Option<Point>)
    ensures r.None? <==> |scans| < MinScans
  {
    if |scans| < MinScans then None
    else
      var ws := InverseSquareWeights(scans);
      SumPositive(ws);
      WeightedCentroid(PositionsOf(scans), ws)
  }

  /** The solved position lies within the bounding box of the stations. */
  lemma TrilaterateWithinStations(scans: seq<ScanWithDistance>, lo: Point, hi: Point)
    requires forall i :: 0 <= i < |scans| ==> InBox(Coords(scans[i].position), lo, hi)
    ensures Trilaterate(scans).Some? ==> InBox(Trilaterate(scans).value, lo, hi)
  {
    if |scans| >= MinScans {
      CentroidInBox(PositionsOf(scans), InverseSquareWeights(scans), lo, hi);
    }
  }

  /** With all distances equal every weight is the same, and the solver returns
      the plain average of the station positions. */
  lemma TrilaterateEqualDistances(scans: seq<ScanWithDistance>, d: real)
    requires |scans| >= MinScans
    requires forall i :: 0 <= i < |scans| ==> scans[i].distance == d
    ensures Trilaterate(scans) == Some(AveragePositions(PositionsOf(scans)))
  {
    var ws := InverseSquareWeights(scans);
    assert Trilaterate(scans) == WeightedCentroid(PositionsOf(scans), ws);
    EqualWeightsAverage(PositionsOf(scans), ws, InverseSquareWeight(d));
  }

  /** Equal positive weights make the weighted centroid the plain average. */
  lemma EqualWeightsAverage(ps: seq<Position>, ws: seq<real>, c: real)
    requires |ws| == |ps| > 0 && c > 0.0
    requires forall i :: 0 <= i < |ws| ==> ws[i] == c
    ensures WeightedCentroid(ps, ws) == Some(AveragePositions(ps))
  {
    EqualWeightsMean(ws, Xs(ps), c);
    EqualWeightsMean(ws, Ys(ps), c);
    EqualWeightsMean(ws, Zs(ps), c);
  }

  lemma EqualWeightsMean(ws: seq<real>, vs: seq<real>, c: real)
    requires |ws| == |vs| > 0 && c > 0.0
    requires forall i :: 0 <= i < |ws| ==> ws[i] == c
    ensures Sum(ws) != 0.0
    ensures Dot(ws, vs) / Sum(ws) == Sum(vs) / (|vs| as real)
  {
    DotConstant(ws, vs, c);
    var n := |ws| as real;
    assert n == |vs| as real;
    CancelFactor(c, Dot(ws, vs), Sum(ws), Sum(vs), n);
  }

  lemma CancelFactor(c: real, num: real, den: real, a: real, n: real)
    requires c > 0.0 && n > 0.0
    requires num == c * a && den == c * n
    ensures den != 0.0 && num / den == a / n
  {
    assert den > 0.0;
    assert a / n * n == a;
    assert (a / n) * den == num;
  }

  /** Stations given without z (every route but `all-devices` and the bulk
      `device-location` query does this) yield z = 0. */
  lemma TrilaterateFlatStations(scans: seq<ScanWithDistance>)
    requires forall i :: 0 <= i < |scans| ==> scans[i].position.z.None?
    ensures Trilaterate(scans).Some? ==> Trilaterate(scans).value.z == 0.0
  {
    if |scans| >= MinScans {
      var ps := PositionsOf(scans);
      DotConstant(Zs(ps), InverseSquareWeights(scans), 0.0);
      DotSymmetric(InverseSquareWeights(scans), Zs(ps));
    }
  }

  lemma {:induction false} DotSymmetric(ws: seq<real>, vs: seq<real>)
    requires |ws| == |vs|
    ensures Dot(ws, vs) == Dot(vs, ws)
  {
    if |ws| > 0 {
      DotSymmetric(ws[1..], vs[1..]);
    }
  }

  // ---------------------------------------------------------------------------
  // Least squares (defined in the library, not called by any route)

  /** One row of the linear system A [x, y] = b. */
  datatype Row = Row(a0: real, a1: real, b: real)

  /** The normal equations AᵀA [x, y] = Aᵀb. */
  datatype Normal = Normal(m00: real, m01: real, m10: real, m11: real, v0: real, v1: real)

  function NormalOf(rows: seq<Row>): Normal
  {
    if |rows| == 0 then Normal(0.0, 0.0, 0.0, 0.0, 0.0, 0.0)
    else
      var n := NormalOf(rows[..|rows| - 1]);
      var r := rows[|rows| - 1];
      Normal(n.m00 + r.a0 * r.a0, n.m01 + r.a0 * r.a1, n.m10 + r.a1 * r.a0, n.m11 + r.a1 * r.a1,
             n.v0 + r.a0 * r.b, n.v1 + r.a1 * r.b)
  }

  function Det(n: Normal): real
  {
    n.m00 * n.m11 - n.m01 * n.m10
  }

  function Abs(x: real): real
  {
    if x < 0.0 then -x else x
  }

  predicate SolvesNormal(n: Normal, x: real, y: real)
  {
    n.m00 * x + n.m01 * y == n.v0 && n.m10 * x + n.m11 * y == n.v1
  }

  /** Cramer's rule on the 2x2 normal equations; `None` below two rows or when
      the determinant is below 1e-10 in absolute value. */
  function LeastSquaresSolve(rows: seq<Row>): (r: Option<(real, real)>)
    ensures r.Some? <==> |rows| >= 2 && Abs(Det(NormalOf(rows))) >= SingularDeterminant
    ensures r.Some? ==> SolvesNormal(NormalOf(rows), r.value.0, r.value.1)
  {
    if |rows| < 2 then None
    else
      var n := NormalOf(rows);
      var det := Det(n);
      if Abs(det) < SingularDeterminant then None
      else
        CramerSolves(n);
        Some(((n.v0 * n.m11 - n.v1 * n.m01) / det, (n.m00 * n.v1 - n.m10 * n.v0) / det))
  }

  lemma CramerSolves(n: Normal)
    requires Det(n) != 0.0
    ensures SolvesNormal(n, (n.v0 * n.m11 - n.v1 * n.m01) / Det(n), (n.m00 * n.v1 - n.m10 * n.v0) / Det(n))
  {
    var det := Det(n);
    var px, py := n.v0 * n.m11 - n.v1 * n.m01, n.m00 * n.v1 - n.m10 * n.v0;
    assert n.m00 * px + n.m01 * py == n.v0 * det;
    assert n.m10 * px + n.m11 * py == n.v1 * det;
    DivideThrough(n.m00, n.m01, px, py, det);
    DivideThrough(n.m10, n.m11, px, py, det);
  }

  lemma DivideThrough(a: real, b: real, px: real, py: real, det: real)
    requires det != 0.0
    ensures a * (px / det) + b * (py / det) == (a * px + b * py) / det
  {
  }

  /** A non-singular solve is the only solution of the normal equations. */
  lemma LeastSquaresUnique(rows: seq<Row>, x: real, y: real)
    requires LeastSquaresSolve(rows).Some?
    requires SolvesNormal(NormalOf(rows), x, y)
    ensures LeastSquaresSolve(rows).value == (x, y)
  {
    var n := NormalOf(rows);
    var (u, v) := LeastSquaresSolve(rows).value;
    var dx, dy := x - u, y - v;
    assert n.m00 * dx + n.m01 * dy == 0.0;
    assert n.m10 * dx + n.m11 * dy == 0.0;
    assert Det(n) * dx == n.m11 * (n.m00 * dx + n.m01 * dy) - n.m01 * (n.m10 * dx + n.m11 * dy);
    assert Det(n) * dy == n.m00 * (n.m10 * dx + n.m11 * dy) - n.m10 * (n.m00 * dx + n.m01 * dy);
  }

  // ---------------------------------------------------------------------------
  // Plain centroid (fallback, not called by any route)

  /** 1 / (d + 0.1); `None` where the source divides by zero. */
  function InverseDistanceWeight(d: real): (w: Option<real>)
    ensures w.None? <==> d + DistanceOffset == 0.0
    ensures d > -DistanceOffset ==> w.Some? && w.value > 0.0
  {
    if d + DistanceOffset == 0.0 then None else Some(1.0 / (d + DistanceOffset))
  }

  /** The caller's weights when given, otherwise the inverse-distance weights. */
  function CentroidWeights(scans: seq<ScanWithDistance>, weights: Option<seq<real>>): (ws: Option<seq<real>>)
    requires weights.Some? ==> |weights.value| >= |scans|
    ensures ws.Some? ==> |ws.value| == |scans|
    ensures weights.Some? ==> ws == Some(weights.value[..|scans|])
    ensures weights.None? && (forall i :: 0 <= i < |scans| ==> scans[i].distance > -DistanceOffset) ==>
      ws.Some? && AllPositive(ws.value)
  {
    if weights.Some? then Some(weights.value[..|scans|])
    else if |scans| == 0 then Some([])
    else
      var w := InverseDistanceWeight(scans[0].distance);
      var rest := CentroidWeights(scans[1..], None);
      if w.None? || rest.None? then None else Some([w.value] + rest.value)
  }

  /** `calculateCentroid`: `None` stands for the non-finite result the source
      computes when a weight or the total weight divides by zero. */
  function CalculateCentroid(scans: seq<ScanWithDistance>, weights: Option<seq<real>>): (r: Option<Point>)
    requires weights.Some? ==> |weights.value| >= |scans|
  {
    var ws := CentroidWeights(scans, weights);
    if ws.None? then None else WeightedCentroid(PositionsOf(scans), ws.value)
  }

  /** With positive weights (given, or derived from distances above -0.1) the
      centroid exists and lies within the stations' bounding box. */
  lemma CalculateCentroidWithinStations(scans: seq<ScanWithDistance>, weights: Option<seq<real>>, lo: Point, hi: Point)
    requires weights.Some? ==> |weights.value| >= |scans| && forall i :: 0 <= i < |scans| ==> weights.value[i] > 0.0
    requires weights.None? ==> forall i :: 0 <= i < |scans| ==> scans[i].distance > -DistanceOffset
    requires |scans| > 0
    requires forall i :: 0 <= i < |scans| ==> InBox(Coords(scans[i].position), lo, hi)
    ensures CalculateCentroid(scans, weights).Some?
    ensures InBox(CalculateCentroid(scans, weights).value, lo, hi)
  {
    var ws := CentroidWeights(scans, weights).value;
    CentroidInBox(PositionsOf(scans), ws, lo, hi);
  }

  // ---------------------------------------------------------------------------
  // Recency filter

  /** A scan with an RSSI and a timestamp in milliseconds. */
  datatype TimedScan = TimedScan(rssi: int, timestamp: int)

  predicate KeepScan(s: TimedScan, now: int, maxAgeSeconds: int, minRssi: int)
  {
    s.timestamp >= now - maxAgeSeconds * 1000 && s.rssi >= minRssi
  }

  /** Scans at most `maxAgeSeconds` old (cut-off inclusive) with RSSI at least
      `minRssi`, in their original order; `now` is passed in. */
  function FilterScans(scans: seq<TimedScan>, now: int, maxAgeSeconds: int, minRssi: int): (r: seq<TimedScan>)
    ensures |r| <= |scans|
    ensures forall s :: s in r <==> s in scans && KeepScan(s, now, maxAgeSeconds, minRssi)
    ensures forall s :: KeepScan(s, now, maxAgeSeconds, minRssi) ==> multiset(r)[s] == multiset(scans)[s]
  {
    if |scans| == 0 then []
    else
      var rest := FilterScans(scans[1..], now, maxAgeSeconds, minRssi);
      assert scans == [scans[0]] + scans[1..];
      if KeepScan(scans[0], now, maxAgeSeconds, minRssi) then [scans[0]] + rest else rest
  }

  /** Filtering distributes over concatenation, so relative order is kept. */
  lemma {:induction false} FilterScansAppend(a: seq<TimedScan>, b: seq<TimedScan>, now: int, maxAgeSeconds: int, minRssi: int)
    ensures FilterScans(a + b, now, maxAgeSeconds, minRssi)
         == FilterScans(a, now, maxAgeSeconds, minRssi) + FilterScans(b, now, maxAgeSeconds, minRssi)
  {
    if |a| > 0 {
      var ab := a + b;
      assert ab[0] == a[0];
      assert ab[1..] == a[1..] + b;
      FilterScansAppend(a[1..], b, now, maxAgeSeconds, minRssi);
      var fa := FilterScans(a[1..], now, maxAgeSeconds, minRssi);
      var fb := FilterScans(b, now, maxAgeSeconds, minRssi);
      if KeepScan(a[0], now, maxAgeSeconds, minRssi) {
        assert FilterScans(ab, now, maxAgeSeconds, minRssi) == [a[0]] + (fa + fb);
        assert FilterScans(a, now, maxAgeSeconds, minRssi) == [a[0]] + fa;
        assert [a[0]] + (fa + fb) == ([a[0]] + fa) + fb;
      } else {
        assert FilterScans(ab, now, maxAgeSeconds, minRssi) == fa + fb;
        assert FilterScans(a, now, maxAgeSeconds, minRssi) == fa;
      }
    } else {
      assert a + b == b;
    }
  }

  /** A scan exactly `maxAgeSeconds` old is kept; one a second older is dropped. */
  lemma FilterScansCutoff(now: int, maxAgeSeconds: int, rssi: int)
    requires rssi >= -90
    ensures FilterScans([TimedScan(rssi, now - maxAgeSeconds * 1000)], now, maxAgeSeconds, -90)
         == [TimedScan(rssi, now - maxAgeSeconds * 1000)]
    ensures FilterScans([TimedScan(rssi, now - (maxAgeSeconds + 1) * 1000)], now, maxAgeSeconds, -90) == []
  {
  }

  // ---------------------------------------------------------------------------
  // Averaging

  /** Mean of the positions per coordinate (missing z read as 0); the origin for
      an empty list. */
  function AveragePositions(ps: seq<Position>): (r: Point)
    ensures |ps| == 0 ==> r == Point(0.0, 0.0, 0.0)
  {
    if |ps| == 0 then Point(0.0, 0.0, 0.0)
    else
      var n := |ps| as real;
      Point(Sum(Xs(ps)) / n, Sum(Ys(ps)) / n, Sum(Zs(ps)) / n)
  }

  /** The mean of positions inside a box is inside the box. */
  lemma AverageWithinPositions(ps: seq<Position>, lo: Point, hi: Point)
    requires |ps| > 0
    requires forall i :: 0 <= i < |ps| ==> InBox(Coords(ps[i]), lo, hi)
    ensures InBox(AveragePositions(ps), lo, hi)
  {
    assert AllWithin(Xs(ps), lo.x, hi.x) && AllWithin(Ys(ps), lo.y, hi.y) && AllWithin(Zs(ps), lo.z, hi.z) by {
      forall i | 0 <= i < |ps|
        ensures lo.x <= Xs(ps)[i] <= hi.x && lo.y <= Ys(ps)[i] <= hi.y && lo.z <= Zs(ps)[i] <= hi.z
      {
        assert InBox(Coords(ps[i]), lo, hi);
      }
    }
    MeanOfWithin(Xs(ps), lo.x, hi.x);
    MeanOfWithin(Ys(ps), lo.y, hi.y);
    MeanOfWithin(Zs(ps), lo.z, hi.z);
  }

  /** Averaging copies of one position gives that position (z defaulted). */
  lemma AverageOfCopies(ps: seq<Position>, p: Position)
    requires |ps| > 0
    requires forall i :: 0 <= i < |ps| ==> ps[i] == p
    ensures AveragePositions(ps) == Coords(p)
  {
    AverageWithinPositions(ps, Coords(p), Coords(p));
  }
}
