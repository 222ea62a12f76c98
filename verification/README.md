# zopac_heatmap core in Dafny

A model of the core of the zopac_heatmap indoor-positioning system, with
proofs about it. Wi-Fi endpoints capture 802.11 frames with tcpdump and
ship the signal strength (RSSI) of every device they hear. A Next.js
server stores the scans and the endpoints' positions, and estimates each
device's position from the RSSI that several endpoints report.

The model covers both halves of the system.

Server side (TypeScript):

- `localization.ts`: the path-loss model that turns RSSI into a distance
  (module `Localization`). It also covers the inverse-square weighted
  centroid used as "trilateration", the least-squares solver, the
  weighted centroid, scan filtering and position averaging. Module
  `Weighted` holds the weighted-mean bounds these rely on.
- The query routes `all-devices`, `device-location` and `heatmap-data`
  (modules `AllDevices`, `DeviceLocation` and `HeatmapData`). They keep
  the latest scan per endpoint, build the solver's stations, round or
  vote the floor, sort and filter devices, and build heat points. They
  share `DeviceQuery` and the insertion-ordered maps of `Grouping`.
- The ingest routes `scan-data`, `positions` and `endpoint/status`
  (modules `ScanData`, `Positions` and `EndpointStatus`). They cover
  validation with every error reported, the defaults applied to stored
  rows, upserts, deletion and API-key authorisation. Module
  `JsonValues` holds the JSON values request bodies are made of.

Endpoint side (Python):

- The tcpdump line parsers `parser_scan.py`, `scan_extract.py` and
  `scan_parser.py` (modules `Tcpdump`, `ParserScan`, `ScanExtract` and
  `ScanParser`, with character helpers in `Text`).
- The per-MAC time-window aggregator `aggregator.py` (modules
  `Aggregator` and `Statistics`).
- The batching record shipper `shipper.py` (module `Shipper`).
- The heartbeat sender `send_status.py` (module `SendStatus`).
- The settings loader `config.py` (module `EndpointConfig`).

Modelling choices:

- Numbers are exact reals. Python and JavaScript floats are not modelled
  bit for bit.
- `10^x` is a parameter: any function that is 1 at 0, positive and
  strictly increasing.
- Insertion-ordered `Map`s and `dict`s are sequences of entries with
  distinct keys.
- SQL results are inputs, given as sequences of rows.
- Clocks, the host name, time formatting and the network are parameters
  or inputs.

## Model

| member | source | states |
|---|---|---|
| Localization.RssiToDistance | server/app/lib/localization.ts:30-45 | an RSSI of 0 gives the -1 sentinel and nothing else does; every other RSSI gives a positive distance; an RSSI equal to the transmit power gives 10^0 = 1 metre |
| Localization.StrongerSignalIsCloser | server/app/lib/localization.ts:41-42 | with a positive path-loss exponent, a stronger non-zero RSSI never gives a larger distance, and a strictly stronger one gives a strictly smaller distance |
| Localization.DistanceExponent | server/app/lib/localization.ts:41-42 | for every model of 10^x, the distance of a non-zero RSSI is ten to the power (txPower - rssi) / (10 n) |
| Localization.InverseSquareWeights | server/app/lib/localization.ts:67-70 | each scan's weight is 1 / (d^2 + 0.01), which is strictly positive whatever the distance |
| Localization.WeightedCentroid | server/app/lib/localization.ts:62-82 | the weighted centroid is undefined exactly when the weights sum to zero |
| Localization.CentroidInBox | server/app/lib/localization.ts:67-82 | a positively weighted centroid of positions inside a box lies inside that box |
| Localization.Trilaterate | server/app/lib/localization.ts:55-58 | the solver gives no position exactly when fewer than three scans are given |
| Localization.TrilaterateWithinStations | server/app/lib/localization.ts:67-82 | a solved position lies in every box that holds all the stations (a missing z read as 0) |
| Localization.TrilaterateEqualDistances | server/app/lib/localization.ts:67-82 | with three or more scans at one distance, the solver returns the plain mean of the station positions |
| Localization.TrilaterateFlatStations | server/app/lib/localization.ts:74 | when no station has a z, the solved z is 0 |
| Localization.LeastSquaresSolve | server/app/lib/localization.ts:119-154 | a solution exists exactly when there are at least two rows and the determinant of AᵀA is at least 1e-10 in absolute value; a solution satisfies AᵀA [x, y] = Aᵀb exactly |
| Localization.LeastSquaresUnique | server/app/lib/localization.ts:143-153 | when the solve succeeds, its answer is the only solution of the normal equations |
| Localization.InverseDistanceWeight | server/app/lib/localization.ts:172 | the weight 1 / (d + 0.1) is undefined exactly when d = -0.1, and positive for every d above it |
| Localization.CentroidWeights | server/app/lib/localization.ts:169-172 | the caller's weights are used position by position when given; otherwise the inverse-distance weights, all positive when every distance exceeds -0.1 |
| Localization.CalculateCentroidWithinStations | server/app/lib/localization.ts:163-185 | with positive weights (given, or derived from distances above -0.1) and at least one scan, the centroid exists and lies in every box holding the stations |
| Localization.FilterScans | server/app/lib/localization.ts:201-212 | a scan is kept exactly when it is at most maxAgeSeconds old (cut-off inclusive) and its RSSI is at least minRssi; every kept scan keeps its multiplicity |
| Localization.FilterScansAppend | server/app/lib/localization.ts:209-211 | filtering distributes over concatenation, so the kept scans keep their relative order |
| Localization.FilterScansCutoff | server/app/lib/localization.ts:207-210 | a scan exactly maxAgeSeconds old is kept and one a second older is dropped |
| Localization.AveragePositions | server/app/lib/localization.ts:218-221 | the mean of no positions is the origin |
| Localization.AverageWithinPositions | server/app/lib/localization.ts:218-237 | the mean of positions inside a box lies inside that box |
| Localization.AverageOfCopies | server/app/lib/localization.ts:223-236 | averaging copies of one position gives that position, with a missing z read as 0 |
| DeviceQuery.LatestPerEndpoint | server/app/api/query/all-devices/route.ts:60-66 | the kept rows are the values of the latest-per-endpoint map, in the map's insertion order |
| DeviceQuery.LatestPerEndpointCount | server/app/api/query/all-devices/route.ts:60-66 | one row is kept per distinct endpoint, and at least one when there are rows |
| DeviceQuery.LatestPerEndpointIsLatest | server/app/api/query/device-location/route.ts:84-90 | each kept row is its endpoint's latest row, the earliest-seen of equally late rows, since an entry is replaced only on a strictly later timestamp; no endpoint is kept twice |
| DeviceQuery.LatestPerEndpointCovers | server/app/api/query/all-devices/route.ts:61-65 | every endpoint of the input has a kept row |
| DeviceQuery.Station | server/app/api/query/all-devices/route.ts:69-78 | a solver input keeps the endpoint, RSSI, x and y of its row and has the path-loss distance; it carries z (as `z || 0`) exactly when the route builds stations with z |
| DeviceQuery.Stations | server/app/api/query/device-location/route.ts:93-101 | one solver input per kept row, in order |
| DeviceQuery.MeanDistanceWithin | server/app/api/query/all-devices/route.ts:88 | the accuracy estimate, the mean distance, lies between the smallest and the largest distance |
| DeviceQuery.Round | server/app/api/query/all-devices/route.ts:85 | `Math.round` gives the integer within half a unit, halves rounded up |
| DeviceQuery.RoundUnique | server/app/api/query/all-devices/route.ts:85 | only one integer lies within half a unit (upper end inclusive), so the rounding is determined |
| DeviceQuery.FloorsOf | server/app/api/query/all-devices/route.ts:84 | the non-null floors: empty exactly when every row's floor is null, and holding exactly the floors that occur |
| DeviceQuery.RoundedMeanFloor | server/app/api/query/all-devices/route.ts:84-85 | the floor is null exactly when no row has a floor |
| DeviceQuery.RoundedMeanFloorWithin | server/app/api/query/all-devices/route.ts:84-85 | the rounded mean floor lies between the lowest and the highest floor |
| DeviceQuery.LastMostFrequentIndex | server/app/api/query/device-location/route.ts:116-118 | the position picked has the highest count, and every later position has a strictly lower count, as a stable sort by count followed by `pop` leaves it |
| DeviceQuery.MajorityFloor | server/app/api/query/device-location/route.ts:114-119 | with no non-null floor the floor is 1 |
| DeviceQuery.MajorityFloorIsMostFrequent | server/app/api/query/device-location/route.ts:114-119 | the chosen floor occurs, no floor occurs more often, and of equally frequent floors the one whose last occurrence comes latest wins |
| AllDevices.CalculateLocation | server/app/api/query/all-devices/route.ts:21-99 | no rows give the all-null answer with scans_used 0; otherwise the timestamp is the newest row's; a position exists exactly when at least three endpoints remain; method and accuracy are present exactly when a position is, and the method is then trilateration |
| AllDevices.ScansUsedCountsEndpoints | server/app/api/query/all-devices/route.ts:60-94 | scans_used is the number of distinct endpoints among the rows |
| AllDevices.CalculateLocationBounds | server/app/api/query/all-devices/route.ts:69-96 | the position lies inside every box holding the stations, the accuracy between the smallest and the largest distance, and the floor between the lowest and the highest endpoint floor |
| AllDevices.KeptRowsAreRows | server/app/api/query/all-devices/route.ts:60-66 | every kept row is one of the query's rows |
| AllDevices.FloorNullIffNoEndpointFloor | server/app/api/query/all-devices/route.ts:84-85 | with one floor per endpoint, as the join gives, the floor is null exactly when none of the device's rows has a floor |
| AllDevices.Insert | server/app/api/query/all-devices/route.ts:176-181 | inserting into a list sorted by (floor or 0, x) keeps it sorted and adds exactly the one device |
| AllDevices.InsertStable | server/app/api/query/all-devices/route.ts:176-181 | an inserted device lands behind every device with the same key, and no key's devices change order |
| AllDevices.SortDevices | server/app/api/query/all-devices/route.ts:176-181 | the result is sorted by floor (null as 0) and then x, is a permutation of the input, and is stable like `Array.prototype.sort`: the devices sharing any one key appear in the same order as in the input |
| AllDevices.SortSortedIsIdentity | server/app/api/query/all-devices/route.ts:176-181 | sorting a list already in key order returns it unchanged, so ties are never swapped and sorting twice is sorting once |
| AllDevices.Located | server/app/api/query/all-devices/route.ts:165-171 | exactly the devices with a position are kept, each as often as it occurs |
| AllDevices.LocatedAppend | server/app/api/query/all-devices/route.ts:165-171 | keeping the located devices of two lists one after the other is keeping them from the joined list, so the kept devices stay in computation order |
| AllDevices.Locations | server/app/api/query/all-devices/route.ts:162-167 | one location per MAC, in order, each computed from that MAC's rows |
| AllDevices.GetDevices | server/app/api/query/all-devices/route.ts:162-181 | the list is sorted, every listed device has a position, was placed by trilateration and used at least three endpoints, and devices with equal keys keep the order in which their MACs were processed |
| AllDevices.LocatedAreTrilaterated | server/app/api/query/all-devices/route.ts:165-171 | a located device in the computed list always carries the trilateration method, since the solver needs three endpoints |
| AllDevices.GetDevicesAreLocated | server/app/api/query/all-devices/route.ts:165-181 | the `GET` list holds exactly the located devices, each as often as it was computed |
| AllDevices.PostDevices | server/app/api/query/all-devices/route.ts:230-251 | a missing, non-array or empty `macs` gives a 400; a non-string entry throws (500); otherwise one location per requested MAC, lower-cased, in request order |
| DeviceLocation.Locate | server/app/api/query/device-location/route.ts:69-130 | no rows give the no-scan answer; otherwise the timestamp is the newest row's and the floor is the majority floor; a position exists exactly when three endpoints remain, and an accuracy exactly when a position does |
| DeviceLocation.LocateFacts | server/app/api/query/device-location/route.ts:84-111 | scans_used counts the distinct endpoints; the position lies inside every box holding the stations, with z = 0 when the stations have no z; the accuracy lies between the smallest and the largest distance |
| DeviceLocation.StationsWithin | server/app/api/query/device-location/route.ts:93-101 | solver inputs built from some of the rows keep the rows' position and distance bounds, and have no z when built without |
| DeviceLocation.LocateFloor | server/app/api/query/device-location/route.ts:113-119 | the reported floor is 1 when no row has a floor, and otherwise a floor that occurs at least as often as any other |
| DeviceLocation.GetLocation | server/app/api/query/device-location/route.ts:29-81 | a missing or empty `mac` gives a 400; otherwise the answer is for that MAC, the no-scan answer when there are no rows |
| DeviceLocation.GetLocationFlat | server/app/api/query/device-location/route.ts:93-104 | `GET` builds stations without z, so a reported position has z = 0 |
| DeviceLocation.PostLocations | server/app/api/query/device-location/route.ts:160-287 | a null body throws while being destructured and the catch answers 500; otherwise `macs` must be a non-empty array (400); otherwise one location per requested entry, as given and not lower-cased, in request order |
| DeviceLocation.PostLocatesEachMac | server/app/api/query/device-location/route.ts:205-268 | each requested MAC is located from exactly its own rows in query order; a non-string entry, or a MAC without rows, gets the no-scan answer |
| Grouping.IndexOf | server/app/api/query/heatmap-data/route.ts:61 | the position of a key in an insertion-ordered map, negative exactly when the key is absent |
| Grouping.Get | server/app/api/query/heatmap-data/route.ts:64 | `map.get` finds a value exactly when the key is present |
| Grouping.Set | server/app/api/query/heatmap-data/route.ts:62 | `map.set` keeps an existing key in its place and puts a new key last; only that key's value changes, and keys stay distinct |
| Grouping.GroupBy | server/app/api/query/heatmap-data/route.ts:58-65 | the grouping map has distinct keys |
| Grouping.GroupByGroups | server/app/api/query/heatmap-data/route.ts:58-65 | every group holds exactly the rows with its key, in their original order, and is not empty; a key has a group exactly when some row carries it |
| Grouping.GroupByOrder | server/app/api/query/heatmap-data/route.ts:58-65 | groups come in the order of their key's first appearance |
| Grouping.GroupByGet | server/app/api/query/device-location/route.ts:205-218 | `scansByMac.get(mac) \|\| []` is exactly the rows of that MAC, in order |
| Grouping.LatestBy | server/app/api/query/device-location/route.ts:84-90 | the latest-per-key map has distinct keys |
| Grouping.LatestByKeys | server/app/api/query/device-location/route.ts:84-90 | the latest-per-key map has the same keys, in the same order, as the grouping by that key |
| Grouping.LatestByLatest | server/app/api/query/device-location/route.ts:84-90 | each kept row is the latest row of its key, the earliest of equally late ones |
| Grouping.LatestIsUnique | server/app/api/query/device-location/route.ts:87 | at most one row is the latest of a key |
| Grouping.LatestSnocSame | server/app/api/query/device-location/route.ts:86-89 | a row with a strictly later timestamp replaces the kept row of its key; an equally late or older one does not |
| HeatmapData.PositionedRows | server/app/api/query/heatmap-data/route.ts:72-73 | exactly the rows whose endpoint has both x and y are kept, each as often as it occurs |
| HeatmapData.PositionedRowsAppend | server/app/api/query/heatmap-data/route.ts:72-73 | filtering two lists one after the other is filtering the joined list, so the kept rows stay in query order |
| HeatmapData.HeatStations | server/app/api/query/heatmap-data/route.ts:74-79 | one solver input, without z, per positioned row |
| HeatmapData.MaxOf | server/app/api/query/heatmap-data/route.ts:87-88 | `Math.max` of a non-empty list is one of its elements and no element exceeds it |
| HeatmapData.Intensity | server/app/api/query/heatmap-data/route.ts:93 | the heat value is never below 0, is at most 100 when the RSSI is at most 0, and is 100 + RSSI from -100 up |
| HeatmapData.PointForFacts | server/app/api/query/heatmap-data/route.ts:70-99 | a device has a point exactly when at least three of its rows are positioned; the point counts those rows, carries the strongest RSSI and the latest timestamp of all the device's rows (positioned or not), has a value in [0, 100] for non-positive RSSIs, and sits at the rounded solver position |
| HeatmapData.GroupPoints | server/app/api/query/heatmap-data/route.ts:70-101 | one optional point per group, in group order |
| HeatmapData.Heatmap | server/app/api/query/heatmap-data/route.ts:103-110 | the payload declares max 100 and min 0, and `count` is the number of points |
| HeatmapData.HeatmapPerDevice | server/app/api/query/heatmap-data/route.ts:57-101 | a device that has rows gets a point exactly when at least three of its rows are positioned, and at most one point |
| HeatmapData.HeatmapMacsDistinct | server/app/api/query/heatmap-data/route.ts:58-101 | no two points share a MAC |
| HeatmapData.HeatmapPointOfGroup | server/app/api/query/heatmap-data/route.ts:70-101 | a group of distinct-keyed groups has a point exactly when it holds three positioned rows |
| JsonValues.NumberOr | server/app/api/endpoint/positions/route.ts:100-101 | `v \|\| fallback`: the fallback exactly when the value is missing or falsy, otherwise the value itself; a missing or numeric value always gives a number, and the result is falsy only when it is the fallback |
| JsonValues.NumberOrIdempotent | server/app/api/endpoint/positions/route.ts:100-101 | with a non-zero fallback, defaulting a defaulted value again changes nothing |
| JsonValues.Batch | server/app/api/endpoint/scan-data/route.ts:29 | an array body is the batch and any other body is a batch of one, so every item is the body or one of its elements, and the batch is empty only for `[]` |
| JsonValues.BatchOfBatch | server/app/api/endpoint/scan-data/route.ts:29 | sending a batch back as an array body yields the same batch |
| ScanData.MacPatternIsShape | server/app/api/endpoint/scan-data/route.ts:5-8 | the regular expression's repeated group matches exactly the strings with hex digits everywhere but every third character, which is a separator |
| ScanData.ValidMacShape | server/app/api/endpoint/scan-data/route.ts:5-8 | a valid MAC address is exactly 17 characters: six hex pairs with `:` or `-`, mixed freely, at every third position |
| ScanData.ScanErrors | server/app/api/endpoint/scan-data/route.ts:35-56 | a scan gets at most four errors, all carrying its index |
| ScanData.ScanErrorsMembers | server/app/api/endpoint/scan-data/route.ts:38-56 | the errors of a scan are exactly its problems: a missing or non-string endpoint or MAC; a bad MAC format only for a present string MAC; a missing RSSI, or an RSSI that is not an integer in [-100, 0] only when present; the same two-step check for the timestamp |
| ScanData.NoErrorsIffValid | server/app/api/endpoint/scan-data/route.ts:38-56 | a scan has no errors exactly when it is valid |
| ScanData.Stored | server/app/api/endpoint/scan-data/route.ts:59-92 | the row stored for a valid scan holds its non-empty endpoint id, its well-formed MAC, its integer RSSI in [-100, 0] and its timestamp |
| ScanData.BatchErrors | server/app/api/endpoint/scan-data/route.ts:32-62 | every error of a batch names one of its scans |
| ScanData.BatchErrorsMembers | server/app/api/endpoint/scan-data/route.ts:35-62 | the errors of a batch are exactly the problems of its scans |
| ScanData.BatchErrorsEmpty | server/app/api/endpoint/scan-data/route.ts:65-74 | a batch has no errors exactly when every scan is valid |
| ScanData.StoredAll | server/app/api/endpoint/scan-data/route.ts:87-95 | one stored row per scan, in order |
| ScanData.Ingest | server/app/api/endpoint/scan-data/route.ts:24-103 | a null scan throws (500); otherwise any error rejects the whole batch (400) listing every error in order, and a batch without errors is stored whole, in order (201) |
| ScanData.CheckScan | server/app/api/endpoint/scan-data/route.ts:35-62 | one turn of the loop appends the scan's errors, and adds the scan to the valid list only while no error has been recorded in the batch |
| ScanData.IngestStep | server/app/api/endpoint/scan-data/route.ts:58-61 | the loop's invariant is kept by one more scan: the valid list is the stored rows of the scans so far while no error has been recorded |
| Positions.PositionErrors | server/app/api/endpoint/positions/route.ts:53-69 | a position gets at most five errors, all carrying its index |
| Positions.PositionErrorsMembers | server/app/api/endpoint/positions/route.ts:54-68 | the errors of a position are exactly its problems: a missing or non-string endpoint id, a missing or non-number x or y, a present non-number z or floor |
| Positions.NoErrorsIffValid | server/app/api/endpoint/positions/route.ts:54-68 | a position has no errors exactly when it is valid |
| Positions.BatchErrors | server/app/api/endpoint/positions/route.ts:52-69 | every error of a batch names one of its positions |
| Positions.BatchErrorsEmpty | server/app/api/endpoint/positions/route.ts:71-80 | a batch has no errors exactly when every position is valid |
| Positions.Stored | server/app/api/endpoint/positions/route.ts:95-104 | the stored row keeps the id, x and y; z is 0 when absent; floor is 1 when absent or 0 (`floor \|\| 1`), else the given floor; the description is kept only when truthy |
| Positions.StoredAll | server/app/api/endpoint/positions/route.ts:92-117 | one stored row per position, in order |
| Positions.UpsertAll | server/app/api/endpoint/positions/route.ts:94-114 | after the upserts the table's endpoints are the old ones plus those written |
| Positions.LastFor | server/app/api/endpoint/positions/route.ts:105-112 | the last row written for an endpoint is one of the rows, for that endpoint, and exists exactly when some row names it |
| Positions.UpsertAllLastWins | server/app/api/endpoint/positions/route.ts:105-112 | every endpoint written holds the last row written for it; every other endpoint keeps its old row, or stays absent |
| Positions.Post | server/app/api/endpoint/positions/route.ts:44-128 | a null position throws (500); any error rejects the batch (400) with every error listed, before any write; otherwise every position is written, in order (201) |
| Positions.Delete | server/app/api/endpoint/positions/route.ts:142-188 | a missing or empty id gives a 400 and an unknown id a 404; otherwise exactly that endpoint's row is removed and returned, and every other row stays |
| EndpointStatus.OrElse | server/app/api/endpoint/status/route.ts:9-11 | JavaScript `a \|\| b` on strings: `a` when present and non-empty, otherwise `b` |
| EndpointStatus.Token | server/app/api/endpoint/status/route.ts:6-9 | the token is the Authorization value after a case-sensitive `ApiKey ` prefix, or the x-api-key header when that is absent or empty |
| EndpointStatus.AuthorizationFacts | server/app/api/endpoint/status/route.ts:5-13 | presenting the server key (ENDPOINT_API_KEY, else API_KEY) in either header is authorised; without a server key nothing is |
| EndpointStatus.BearerIsNotApiKey | server/app/api/endpoint/status/route.ts:7-9 | a `Bearer` Authorization header carries no key; only x-api-key counts then |
| EndpointStatus.Post | server/app/api/endpoint/status/route.ts:17-82 | an unauthorised request gets a 401 before the body is read; a null body throws (500); a falsy endpoint_id gives a 400; a status that is present but not online, offline or error gives a 400; otherwise the row is upserted with status online by default, metadata kept only when truthy, and every other endpoint's row unchanged |
| EndpointStatus.PostIdempotent | server/app/api/endpoint/status/route.ts:60-69 | reporting the same status twice leaves the table as the first report left it |
| Statistics.Insert | endpoint/aggregator.py:105 | inserting into a sorted list keeps it sorted and adds exactly the one value |
| Statistics.Sort | endpoint/aggregator.py:105 | the sorted values are ascending and a permutation of the input |
| Statistics.SortedValuesWithin | endpoint/aggregator.py:105 | sorting keeps every value within bounds that held before |
| Statistics.SummariesWithin | endpoint/aggregator.py:105-107 | the median and the mean lie within any bounds of the values, and the population variance is not negative |
| Statistics.SingleSample | endpoint/aggregator.py:105-107 | a single value is its own median and mean, with variance 0 |
| Statistics.TwoSamples | endpoint/aggregator.py:105-107 | of two values, the median and the mean are their midpoint, and the variance is the square of half their difference |
| Aggregator.New | endpoint/aggregator.py:51-57 | a new aggregator has no open window and keeps its window length |
| Aggregator.Trunc | endpoint/aggregator.py:109 | Python `int` on a float truncates toward zero |
| Aggregator.Summarize | endpoint/aggregator.py:99-111 | the record carries the MAC, the window's first and last capture times, its sample count, the last sample's channel, the window length in whole milliseconds, and the aggregated flag |
| Aggregator.SummarizeWithin | endpoint/aggregator.py:105-107 | the median and the average RSSI lie within any bounds of the window's RSSIs, and the variance is not negative |
| Aggregator.SummarizeSingle | endpoint/aggregator.py:107 | a one-sample window summarises to that sample, with deviation 0 |
| Aggregator.Extend | endpoint/aggregator.py:60-65 | a sample joins its MAC's window; first_ts is set only by a window's first sample, and last_ts always becomes the new sample's time |
| Aggregator.Emit | endpoint/aggregator.py:90-115 | emitting a MAC without a window does nothing; otherwise it emits that window's summary once and removes the MAC, leaving every other window and the order of the rest unchanged |
| Aggregator.AddSample | endpoint/aggregator.py:59-69 | the window is emitted exactly when the sample lies window_s or more after the window's first sample (inclusive boundary); then the MAC is closed, otherwise its window holds the new sample; other MACs are untouched |
| Aggregator.AddSampleGrows | endpoint/aggregator.py:59-69 | add_sample is "extend the window, then emit it when due" |
| Aggregator.EmitAll | endpoint/aggregator.py:82-83 | emitting a list of MACs closes exactly those listed, leaves every other window as it was, and emits at most one record per listed MAC |
| Aggregator.EmitAllOrder | endpoint/aggregator.py:82-83 | emitting distinct open MACs removes exactly them from the open order |
| Aggregator.EmitAllRecords | endpoint/aggregator.py:82-83 | emitting distinct open MACs emits one summary each, in the given order |
| Aggregator.Expired | endpoint/aggregator.py:77-81 | the listed MACs are exactly the open ones whose window began window_s or more before now |
| Aggregator.FlushExpired | endpoint/aggregator.py:71-83 | afterwards exactly the windows that had not expired are open, each unchanged |
| Aggregator.FlushExpiredEmits | endpoint/aggregator.py:71-83 | every emitted record is the summary of an expired window, and every expired window is emitted |
| Aggregator.FlushAll | endpoint/aggregator.py:85-88 | afterwards no window is open |
| Aggregator.FlushAllEmits | endpoint/aggregator.py:85-88 | flush_all emits the summary of every open window, in the order the windows were opened |
| Aggregator.FlushAllTwice | endpoint/Tests/test_aggregator.py:73-76 | a second flush_all emits nothing |
| Aggregator.FlushExpiredTwice | endpoint/aggregator.py:77-83 | a second flush_expired at the same time emits nothing |
| Aggregator.EmitConserves | endpoint/aggregator.py:113-115 | emitting moves a window's samples from the aggregator into its record, none lost or duplicated |
| Aggregator.AddSampleConserves | endpoint/aggregator.py:59-69 | add_sample adds exactly one sample, held or emitted |
| Aggregator.FlushAllConserves | endpoint/aggregator.py:85-88 | flush_all hands every held sample to its records |
| Aggregator.FlushExpiredConserves | endpoint/aggregator.py:71-83 | flush_expired moves samples into records without losing or duplicating any |
| Aggregator.NoEmitBeforeWindowExpires | endpoint/Tests/test_aggregator.py:33-43 | two samples one second apart in a two-second window emit nothing |
| Aggregator.EmitOnAddSampleWhenWindowExpires | endpoint/Tests/test_aggregator.py:46-76 | a sample 2.5 s after the first emits one record: first 10.0, last 12.5, two samples, median and mean -55, variance 25 (deviation 5), channel 11, 2000 ms; a later flush_all emits nothing |
| Aggregator.PairRecord | endpoint/Tests/test_aggregator.py:60-71 | the pair's summary is the record the test expects |
| Aggregator.FlushExpiredUsesCurrentTime | endpoint/Tests/test_aggregator.py:79-102 | a one-sample window is not flushed one second in, and is flushed 2.5 s in as a one-sample record at -70 with deviation 0 |
| Aggregator.FlushAllEmitsRemaining | endpoint/Tests/test_aggregator.py:105-123 | an unexpired two-sample window survives flush_expired and is emitted by flush_all |
| Aggregator.OneMacOpen | endpoint/Tests/test_aggregator.py:110-116 | after the two samples one window of two samples is open, and flushing at 105 s emits nothing |
| Aggregator.MultipleMacsTrackedIndependently | endpoint/Tests/test_aggregator.py:126-140 | two MACs keep separate windows; both expire, and each emits its own record |
| Aggregator.TwoMacsOpen | endpoint/Tests/test_aggregator.py:131-135 | after one sample for each MAC both windows are open, in arrival order, and both count as expired at 12 s |
| Text.LowerChar | endpoint/parser_scan.py:27-29 | an upper-case ASCII letter becomes its lower-case letter, and every other character is kept |
| Text.Lower | endpoint/parser_scan.py:27-29 | lowering keeps the length, lowers each character in place, and leaves no upper-case letter |
| Text.LowerIsIdempotent | endpoint/parser_scan.py:27-29 | lowering twice is lowering once |
| Tcpdump.DigitRun | endpoint/parser_scan.py:21 | the greedy `\d+` run from a position: all digits, and followed by a non-digit or the end |
| Tcpdump.TimestampText | endpoint/parser_scan.py:21 | a timestamp found is a prefix of the line of the form digits, a point, three or more digits, and the greedy match is not followed by a digit |
| Tcpdump.TimestampTextOf | endpoint/parser_scan.py:21 | a line that starts with a timestamp text followed by a non-digit yields exactly that text |
| Tcpdump.TimestampNeedsLeadingDigit | endpoint/parser_scan.py:21 | the match is anchored: a line not starting with a digit has no timestamp |
| Tcpdump.TimestampValue | endpoint/parser_scan.py:44 | `float` of a timestamp text is not negative |
| Tcpdump.TimestampValueOf | endpoint/parser_scan.py:21-44 | digits, a point and three or more digits form a timestamp whose value is the whole seconds plus the fraction |
| Tcpdump.RssiAt | endpoint/parser_scan.py:22 | a signal match at a position reads an optional minus and one to three digits directly before `dBm signal`, so its value lies in [-999, 999] |
| Tcpdump.FirstRssiAt | endpoint/parser_scan.py:38 | `search` finds the leftmost position where the signal pattern matches, and none before it |
| Tcpdump.RssiAtDigits | endpoint/parser_scan.py:22-45 | one to three digits before `dBm signal`, after a minus or not, are read as that value |
| Tcpdump.RssiAtToken | endpoint/parser_scan.py:22-45 | a printed signal token reads back as its value where it stands |
| Tcpdump.RssiOfToken | endpoint/parser_scan.py:38-45 | a line whose signal token follows text without a `d`, ending in a separator, yields that token's value |
| Tcpdump.FirstRssiIs | endpoint/parser_scan.py:38 | a match with none before it is the one `search` finds |
| Tcpdump.NoRssiWithoutD | endpoint/parser_scan.py:22 | a line without a `d` has no signal |
| Tcpdump.MacAt | endpoint/parser_scan.py:23-24 | an address match at a position is the tag followed by 17 characters from hex digits and `:` |
| Tcpdump.FirstMacAt | endpoint/parser_scan.py:39 | `search` finds the leftmost position where the tagged pattern matches, and none before it |
| Tcpdump.MacText | endpoint/parser_scan.py:39 | the transmitter (`TA:`) address is taken when present, otherwise the source (`SA:`) address |
| Tcpdump.MacAtToken | endpoint/parser_scan.py:23-24 | a tagged address standing as its own word is matched where it stands |
| Tcpdump.MacOfToken | endpoint/parser_scan.py:23-39 | a tagged address standing as its own word after text without a colon is the address found |
| Tcpdump.NoMacWithoutTag | endpoint/parser_scan.py:23-24 | a line without the tag's first letter has no address under that tag |
| Tcpdump.ReadLine | endpoint/parser_scan.py:32-47 | a reading exists exactly when the timestamp, the signal and an address are all found; it holds the lower-cased address (17 characters), the signal in [-999, 999] and the timestamp's value |
| Tcpdump.ReadLineMacIsLower | endpoint/parser_scan.py:46 | the reading's address is in lower case |
| Tcpdump.TransmitterFirst | endpoint/parser_scan.py:39 | of a line naming both a transmitter and a source address, the reading takes the transmitter's |
| Tcpdump.Keyed | endpoint/parser_scan.py:47 | the record is an object with exactly the keys mac, rssi and the capture-time key |
| Tcpdump.ReadCaptureLine | endpoint/parser_scan.py:32-47 | a line built from a timestamp, a signal token and a tagged address, with separators that cannot be mistaken for the patterns, reads back as exactly those three values |
| Tcpdump.CaptureHasNoTransmitter | endpoint/parser_scan.py:39 | a built line carrying only a source address, and no `T` elsewhere, has no transmitter address |
| ParserScan.NormalMac | endpoint/parser_scan.py:27-29 | normal_mac keeps the length, leaves no upper-case letter, keeps every other character, and moves each upper-case letter to its lower-case letter |
| ParserScan.NormalMacIdempotent | endpoint/parser_scan.py:27-29 | normalising twice is normalising once |
| ParserScan.ParseLine | endpoint/parser_scan.py:32-47 | None exactly when the timestamp, the signal or the address is missing; otherwise exactly the keys mac, rssi and timestamp, holding the normalised address, the signal and the timestamp's value |
| ParserScan.ParseCaptureLine | endpoint/parser_scan.py:32-47 | a line built from its parts parses back to those parts |
| ParserScan.RoundHalfEven | endpoint/parser_scan.py:93 | Python `round` gives an integer within half a unit, taking the even one on a tie |
| ParserScan.RoundWithin | endpoint/parser_scan.py:93 | rounding a value between two integers stays between them |
| ParserScan.Compat | endpoint/parser_scan.py:90-95 | the compatibility record has only mac, rssi and timestamp: the record's address, its median signal rounded to within half a unit, and its last capture time |
| ParserScan.CompatRssiWithin | endpoint/parser_scan.py:90-95 | a window whose signals lie between two integers is reported with a signal between them |
| ParserScan.ParsesTransmitterLine | endpoint/Tests/test_parser_scan.py:25-37 | the test's transmitter line yields aa:bb:cc:dd:ee:ff, -50 and 1700000000.123 |
| ParserScan.ParsesSourceLine | endpoint/Tests/test_parser_scan.py:40-52 | the test's source-only line yields 11:22:33:44:55:66, -42 and 1700000000.456 |
| ParserScan.MissingFieldsYieldNothing | endpoint/Tests/test_parser_scan.py:55-69 | the test's lines without a signal, without an address, or without a leading timestamp yield nothing |
| ParserScan.NormalMacLowercases | endpoint/Tests/test_parser_scan.py:72-76 | upper-, lower- and mixed-case inputs all normalise to the lower-case address |
| ScanExtract.NormalMac | endpoint/scan_extract.py:9-10 | the address with each character lowered in place |
| ScanExtract.ParseLine | endpoint/scan_extract.py:12-36 | None exactly when the timestamp, the signal or the address is missing; otherwise exactly the keys mac, rssi and ts with the normalised address, the signal and the timestamp's value |
| ScanExtract.ParseLineRenamesTimestamp | endpoint/scan_extract.py:22-36 | the extractor finds a record exactly when the aggregating parser does, with the same address and signal, and the parser's timestamp under `ts` |
| ScanExtract.ParseCaptureLine | endpoint/scan_extract.py:22-36 | a line built from its parts parses back to those parts, the time under `ts` |
| ScanParser.LowerMac | endpoint/scan_parser.py:12-13 | lower_mac agrees with normal_mac, and lowering its result again changes nothing |
| ScanParser.ParseLine | endpoint/scan_parser.py:15-30 | None exactly when any of the three matches fails; otherwise exactly the keys mac, rssi and ts, with the lower-cased address |
| ScanParser.SameAsScanExtract | endpoint/scan_parser.py:15-30 | the two stand-alone parsers give the same answer on every line |
| Shipper.Defaults | endpoint/shipper.py:39-53 | every argument after the url and the key takes its documented default: batches of 200, 5000 ms, 30 s timeout, 5 retries, no gzip, `x-api-key` auth, no endpoint id, endpoint injected in records and at top level, numeric timestamps |
| Shipper.New | endpoint/shipper.py:55-95 | construction succeeds exactly for a non-empty url, a non-empty key and a known auth style; the errors come in that order; the static headers are exactly content type, accept, user agent and one auth header (`X-API-Key: <key>` or `Authorization: Bearer <key>`, never both) |
| Shipper.NumericValue | endpoint/shipper.py:195-196 | a JSON number (or a bool, which Python counts as an int) is read as a number; nothing else is |
| Shipper.OutgoingRecord | endpoint/shipper.py:186-202 | field by field: `ts` moves to `timestamp` only when `timestamp` is absent, the time is ISO-converted exactly when the option is on and it is numeric, `endpoint_id` is injected only where missing (dropping `endpointId`), and every other field is copied unchanged with no field invented |
| Shipper.OutgoingRecordIdempotent | endpoint/shipper.py:186-202 | rewriting an already rewritten record changes nothing |
| Shipper.Payload | endpoint/shipper.py:178-208 | the body holds the rewritten records one for one and in order, and a top-level `endpointId` exactly when an id is set and top-level inclusion is on; no other key |
| Shipper.RequestHeaders | endpoint/shipper.py:216-220 | the POST headers are the static ones with `Content-Encoding: gzip` added exactly when gzip is on |
| Shipper.Enqueue | endpoint/shipper.py:105-109 | `add` appends the record to the queue while the shipper runs and drops it after close |
| Shipper.SendIfNeeded | endpoint/shipper.py:151-169 | the batch is posted whole or kept whole; it is posted exactly when non-empty and forced, full or older than `flush_ms`; the flush time moves to now on a post or a forced empty call |
| Shipper.Flush | endpoint/shipper.py:111-114 | a flush posts the batch followed by the whole drained queue and leaves an empty batch flushed at now |
| Shipper.SendKeepsOrder | endpoint/shipper.py:161-169 | a send decision neither loses nor reorders a record: each batch position is found in the posted batch or in the kept one |
| Shipper.BackoffValues | endpoint/shipper.py:222-282 | the pauses between retries double from half a second and are capped at 8 seconds from the fifth on |
| Shipper.Attempts | endpoint/shipper.py:225-282 | the retry loop stops at the first 2xx, at a non-retriable failure (a 4xx other than 408, 409, 429) or once `max_retries` attempts are made; every earlier attempt failed retriably and was followed by the backoff pause |
| Shipper.PostRecords | endpoint/shipper.py:210-282 | no records means no request; otherwise between one and `max(1, max_retries)` attempts, delivered exactly when the last one answered 2xx |
| Shipper.PostRecordsBounded | endpoint/shipper.py:256-282 | a batch is delivered or dropped after at most `max(1, max_retries)` attempts, with one pause of half a second to 8 seconds between consecutive attempts |
| Shipper.ConstructorRequiresUrlAndKey | endpoint/Tests/test_shipper.py:24-34 | an empty url or key is refused and a url with a key is accepted |
| Shipper.AuthHeaderStyles | endpoint/Tests/test_shipper.py:37-57 | each auth style sets its own header and not the other |
| Shipper.PayloadInjectsEndpoint | endpoint/Tests/test_shipper.py:60-92 | with an endpoint id the body carries it at the top and in both records, which keep their fields |
| Shipper.PayloadRenamesTs | endpoint/Tests/test_shipper.py:95-125 | a numeric `ts` is sent as an ISO string under `timestamp` and `ts` disappears |
| Shipper.PostSucceedsOnce | endpoint/Tests/test_shipper.py:144-182 | a 201 answer ends the POST after one attempt |
| Shipper.PostRetriesOn500 | endpoint/Tests/test_shipper.py:185-221 | a persistent 500 with `max_retries=3` costs exactly three attempts and two pauses |
| Shipper.PostDoesNotRetryOn400 | endpoint/Tests/test_shipper.py:224-258 | a 400 is not retried |
| SendStatus.StatusUrl | endpoint/send_status.py:17-20 | for a base of scheme, host and a plain path, the url is a prefix of the base, then exactly one slash, then `api/endpoint/status`, and everything of the base that was dropped is slashes |
| SendStatus.StatusUrlOfPlainBase | endpoint/send_status.py:17-20 | a plain base not ending in a slash is kept whole and joined with one slash |
| SendStatus.StatusUrlIgnoresTrailingSlashes | endpoint/send_status.py:19 | any number of trailing slashes on the base gives the same url |
| SendStatus.StatusUrlExamples | endpoint/Tests/test_send_status.py:23-34 | the three bases of the url test give the expected urls, with or without a final slash |
| SendStatus.MakeHeaders | endpoint/send_status.py:23-28 | exactly three headers: JSON content type, the key under `x-api-key`, and a user agent starting with the shipper's `WiFiEndpoint/1.0` |
| SendStatus.HeadersExample | endpoint/Tests/test_send_status.py:37-45 | the header test's key is carried and the user agent starts with `WiFiEndpoint` |
| SendStatus.PadValue | endpoint/send_status.py:35 | a zero-padded field is all digits and reads back as its number |
| SendStatus.PadWidth | endpoint/send_status.py:35 | a number with at most `w` digits is padded to exactly `w` characters |
| SendStatus.RenderMatches | endpoint/send_status.py:35 | values that fit their fields render to a string of the format's shape, and reading the digit runs back gives the values |
| SendStatus.StampShape | endpoint/send_status.py:35 | the timestamp of a `gmtime` reading has the shape `YYYY-MM-DDTHH:MM:SSZ` and its digit runs are the year, month, day, hour, minute and second |
| SendStatus.Payload | endpoint/send_status.py:31-37 | the heartbeat has exactly the keys `endpoint_id`, `status`, `timestamp`, `hostname`: the given id, `online`, the formatted time and the given host |
| SendStatus.PayloadExample | endpoint/Tests/test_send_status.py:48-64 | the payload test's id, status and host are echoed and the timestamp has the expected shape |
| SendStatus.TrySend | endpoint/send_status.py:40-43 | the status is returned; ok exactly for 2xx; an ok answer has an empty body and any other the first 500 characters of the response text |
| SendStatus.TrySendAgreesWithShipper | endpoint/send_status.py:42 | the heartbeat and the record shipper count the same statuses as success |
| SendStatus.TrySendExamples | endpoint/Tests/test_send_status.py:67-123 | a 201 is ok with an empty body; a 500 is not ok and carries the server's text |
| SendStatus.AttributesOfRecord | endpoint/config.py:23-28 | the settings record's text fields are found under their declared names `server_URL`, `api_key` and `endpoint_id` |
| SendStatus.MainSetupAsWritten | endpoint/send_status.py:54-56 | as written, `main` reads the base url from the attribute `server_url`, and a failure names that attribute |
| SendStatus.MainSetupAsWrittenFails | endpoint/send_status.py:49-56 | every configuration that loads still stops `main` with an `AttributeError` on `server_url` |
| SendStatus.MainSetup | endpoint/send_status.py:54-56 | with the field spelled as declared, the setup always succeeds: the status url ends in `/api/endpoint/status` and, for a server url with a plain path, lies under it; the headers carry the configured key, and the interval is `heartbeat_sec` |
| SendStatus.MainSetupAfterLoad | endpoint/send_status.py:49-56 | with the correction, every configuration that loads gives `main` the status url of its server, a non-empty key and the configured interval |
| Text.StripTrailing | endpoint/send_status.py:19 | `rstrip` of one character: the result is a prefix of the text not ending in that character, and everything removed is that character |
| Text.StripTrailingAbsorbs | endpoint/send_status.py:19 | stripping ignores how many copies of the character already ended the text |
| Text.Decimal | endpoint/send_status.py:35 | the decimal digits of a number are non-empty digits that read back as the number |
| Text.DecimalWidth | endpoint/send_status.py:35 | a number below `10^w` has at most `w` decimal digits |
| Text.LeadingZeros | endpoint/send_status.py:35 | zeros put in front of a run of digits do not change its value |
| EndpointConfig.WithDefaults | endpoint/config.py:23-31 | the settings record holds the four required values and the declared defaults `INFO`, `stable`, 30, 200 and 5 |
| EndpointConfig.TrimStart | endpoint/config.py:52 | leading white space (the part `int()` ignores) is removed: the result is a suffix of the text, does not start with white space, and only white space was removed |
| EndpointConfig.TrimEnd | endpoint/config.py:52 | trailing white space is removed in the same way, from the end |
| EndpointConfig.TrimStartSpaces | endpoint/config.py:52 | white space in front of a text that starts with something else is all removed, and nothing more |
| EndpointConfig.TrimEndSpaces | endpoint/config.py:52 | white space after a text that ends with something else is all removed, and nothing more |
| EndpointConfig.DropUnderscores | endpoint/config.py:52 | removing the underscores of an integer literal leaves only digits, and a literal without underscores stays as it is |
| EndpointConfig.ReadInt | endpoint/config.py:52 | a text `int()` accepts once stripped is built only from digits, signs and underscores |
| EndpointConfig.TrimPosition | endpoint/config.py:52 | a character that is not white space is kept by stripping, shifted left by the length of the leading white space |
| EndpointConfig.IntTextChars | endpoint/config.py:52 | a text `int()` accepts holds only white space, digits, signs and underscores |
| EndpointConfig.ReadIntString | endpoint/config.py:52 | the decimal text of any integer, negative ones included, is read back as that integer |
| EndpointConfig.TrimAround | endpoint/config.py:52 | stripping removes exactly the white space around a text that does not start or end with white space |
| EndpointConfig.IntTextRoundTrip | endpoint/config.py:52 | the decimal text of an integer, with any white space around it, is read back as that integer |
| EndpointConfig.AsInt | endpoint/config.py:34-54 | an unset value gives the default; a set one succeeds exactly when `int()` accepts it, with that integer; otherwise the error names the variable and its text |
| EndpointConfig.AsIntExamples | endpoint/Tests/test_config.py:76-80 | unset gives 30, `"5"` gives 5, and `"fast"` is refused |
| EndpointConfig.FirstIndex | endpoint/config.py:66 | the first position of a character, or none exactly when the text lacks it |
| EndpointConfig.Until | endpoint/config.py:66 | the longest prefix free of the stop characters, ending at the first stop character or at the end |
| EndpointConfig.SplitUrl | endpoint/config.py:66 | a scheme found is the text before a colon of the url |
| EndpointConfig.ValidateHttps | endpoint/config.py:57-68 | a url is accepted exactly when it parses, its scheme is `https` and its network location is not empty; a refusal is one of the two url errors |
| EndpointConfig.NoSchemeRejected | endpoint/config.py:66-68 | a url without a colon has no scheme and is refused |
| EndpointConfig.SplitScheme | endpoint/config.py:66 | for a well-formed scheme, the parsed scheme is its lower-case form and the location is what follows `//` up to the first `/`, `?` or `#` |
| EndpointConfig.NetlocOf | endpoint/config.py:66 | the network location is the host up to the first `/`, `?` or `#` |
| EndpointConfig.HttpsAccepted | endpoint/config.py:57-68 | any `https` url with a host, whatever the case of the scheme and whatever path follows, is accepted |
| EndpointConfig.OtherSchemeRejected | endpoint/config.py:67-68 | any well-formed scheme other than `https`, `http` included, is refused |
| EndpointConfig.EmptyHostRejected | endpoint/config.py:67-68 | an `https` url with no host is refused |
| EndpointConfig.HttpsExampleAccepted | endpoint/Tests/test_config.py:82-83 | `https://api.example.com/v1` is accepted |
| EndpointConfig.HttpExampleRejected | endpoint/Tests/test_config.py:85-88 | `http://a` is refused |
| EndpointConfig.NoHostExampleRejected | endpoint/Tests/test_config.py:85-88 | `https://` is refused |
| EndpointConfig.NoSchemeExamplesRejected | endpoint/Tests/test_config.py:85-88 | a bare host name and the empty url are refused |
| EndpointConfig.UnsetKeys | endpoint/config.py:102-107 | the missing list holds exactly the required keys that are unset or empty, in the order they are checked |
| EndpointConfig.SubsequenceSkip | endpoint/config.py:105-107 | a key list taken from the tail of the required keys is still in their order |
| EndpointConfig.SubsequenceDrop | endpoint/config.py:105-107 | a missing list without its first key is still in the order of the required keys |
| EndpointConfig.ReadNumbers | endpoint/config.py:87-91 | the three numeric settings succeed exactly when each is unset or an integer, giving the integers or the defaults 30, 200 and 5; the first bad one, in the order of the fields, is the one reported |
| EndpointConfig.RequiredSet | endpoint/config.py:95-109 | nothing is missing exactly when all four required settings are set and not empty |
| EndpointConfig.LoadConfig | endpoint/config.py:71-113 | a load succeeds exactly when the numbers parse, no required setting is missing and the url is valid https; the errors come in that order, every missing key is reported together, and a loaded record holds the settings' texts and the defaults for unset options |
| EndpointConfig.LoadConfigDefaults | endpoint/config.py:27-91 | with no optional setting in the environment, a successful load gives the record of declared defaults |
| EndpointConfig.MissingSettingNamed | endpoint/config.py:102-110 | a required setting that is unset or empty is named in the error |
| EndpointConfig.MinimalEnvLoads | endpoint/Tests/test_config.py:27-42 | the four required settings alone, with an https url, load to the record of defaults |
| EndpointConfig.NumericSettingsParsed | endpoint/Tests/test_config.py:64-74 | numeric settings holding the decimal texts of any three integers are loaded as those integers |
| EndpointConfig.LoadConfigSucceeds | endpoint/config.py:80-113 | the required settings present and an https url make a load succeed with the numeric fields parsed or defaulted |
| EndpointConfig.ReadsBack | endpoint/config.py:52 | the decimal text of an integer alone is read back as that integer |
| EndpointConfig.SettingsTexts | endpoint/Tests/test_config.py:66-70 | the texts `"45"`, `"500"` and `"2"` of the numeric test are the decimal texts of 45, 500 and 2 |

## Left out

- SQL and Postgres: every query, `DISTINCT ON`, the `WHERE` filters, the join and the connection handling are outside the model; their result rows are inputs. The `GET` and `DELETE` handlers of `endpoint/status` consist only of SQL and response framing and are not modelled.
- HTTP framing: `NextResponse` bodies are reduced to a status code and the data the route computes. Error message texts are not modelled.
- Floating point: numbers are exact reals. `Math.pow(10, x)` is a parameter satisfying the properties of `10^x` listed above. `calculateWeights` (built on `Math.exp`) is not modelled.
- Statistics.SummariesWithin: `statistics.pstdev` needs a square root, so records carry the population variance instead of the deviation.
- Clocks: `Date.now()`, `new Date(...)`, `time.time()` and `time.gmtime()` are parameters. The scan-data route's `isValidTimestamp` check is a parameter predicate on the timestamp.
- Shipper: the background thread, its queue and lock, `time.sleep`, gzip compression and `json.dumps` byte encoding are not modelled. `urlopen` is a function from attempt number to outcome. `_to_iso8601` is a parameter. Exceptions other than `URLError`, `HTTPError` and `TimeoutError` are not modelled.
- Shipper.Payload: the class docstring speaks of a top-level `endpoint_id`, but the code writes `endpointId`; the model follows the code.
- SendStatus: `main`'s loops, sleeps and prints are not modelled; only the setup that precedes them is. `socket.gethostname()` and the `gmtime` reading are parameters, and `requests.post` is reduced to the response's status and text.
- SendStatus.StatusUrl: `urljoin` is modelled as plain concatenation, which it is only for a base made of a scheme that `urljoin` resolves relatively (such as http or https), a host, and a path without empty, `.` or `..` segments, query or fragment. The model does not promise what `urljoin` does outside that shape. It collapses empty path segments (`https://h//x` gives `https://h/x/api/endpoint/status`, where the model keeps the `//`). It resolves `.` and `..`. It drops a query or fragment together with the last path segment. For a scheme outside its relative list it returns the bare route.
- SendStatus.StatusUrlOfPlainBase: "kept whole" holds only for bases of the shape named on the SendStatus.StatusUrl line; a base with an empty, `.` or `..` path segment, a query or a fragment is rewritten by `urljoin`.
- SendStatus.MainSetup: the validated server url always has the https scheme, but its path may still hold an empty, `.` or `..` segment, a query or a fragment. For such a url, "the status url lies under the server url" is a statement about the model only, as on the SendStatus.StatusUrl line.
- SendStatus.StampShape: only years of at most four digits are covered.
- EndpointConfig.SplitUrl: `urlparse` is modelled for the scheme and the network location only. The stripping of control characters and the checks inside bracketed hosts are not modelled.
- EndpointConfig.IntText: `int()` is modelled for ASCII white space and ASCII digits. Unicode digits and white space are not modelled.
- Text.Lower: lowering covers ASCII letters only. Python's `\w` is modelled as ASCII letters, digits and `_`.
- Text.IsDigit: Python's `\d` in the timestamp and RSSI patterns also matches non-ASCII decimal digits; the model, and Tcpdump.DigitRun built on it, accept ASCII digits only.
- Localization.RssiToDistance: requires a non-zero path-loss exponent. The source divides by it anyway and yields Infinity or NaN, which exact reals cannot represent.
- Localization.CentroidWeights: requires at least one given weight per scan. The source reads `undefined` past the end of a short weights array and yields NaN, which exact reals cannot represent; Localization.CalculateCentroid carries the same requirement.
- EndpointStatus.Post: the status table is keyed by the JSON value of `endpoint_id`, so the number 5 and the string "5" are two keys here, while the database's text column stores both as one row.
- `os.getenv` is a map from variable names to texts.
- AllDevices.SortDevices: the route's comparator treats a null floor and a floor of 0 as equal without going on to compare x, which makes it inconsistent. The model sorts by the key (floor or 0, x) that the comparator evidently means.
- Positions.Post: the route writes all positions concurrently with `Promise.all`. The model applies the writes in request order. A database failure during the writes (500) is not modelled.
- Positions.Stored: `floor || 1` stores 1 for an explicit floor of 0. The model keeps this behaviour as written.
- The CLI and streaming code is not modelled: `main()` of `parser_scan.py`, `stream.py` and `start_at_time.py`. These are stdin, file, signal and scheduling plumbing.

## Findings

| source | as written | input that shows it | evidently intended | confidence | as-written member | corrected member |
|---|---|---|---|---|---|---|
| endpoint/send_status.py:54 | `main` reads `cfg.server_url`, but the settings record declares the field as `server_URL` (endpoint/config.py:25), so the lookup raises `AttributeError` before the first heartbeat; `endpoint/stream.py:66` reads the same missing attribute | any environment `load_config` accepts, such as the minimal one of the config tests | read `cfg.server_URL` and post to `<server>/api/endpoint/status` | high; not executed | SendStatus.MainSetupAsWrittenFails | SendStatus.MainSetupAfterLoad |
