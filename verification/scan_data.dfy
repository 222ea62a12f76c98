/** The `scan-data` ingest route: a body holding one scan or a batch of scans is
    validated field by field, every problem is reported with its scan's index,
    and only a batch without a single problem is stored. */
module ScanData {
  import opened Wrappers
  import opened Text
  import opened JsonValues

  // ---------------------------------------------------------------------------
  // Field checks

  predicate IsMacSeparator(c: char)
  {
    c == ':' || c == '-'
  }

  /** `n` groups of two hex digits and a separator, then two hex digits: the
      pattern `^([0-9A-Fa-f]{2}[:-]){n}([0-9A-Fa-f]{2})$`, read left to right. */
  predicate MatchesMacPattern(s: string, n: nat)
    decreases n
  {
    if n == 0 then |s| == 2 && IsHexDigit(s[0]) && IsHexDigit(s[1])
    else |s| >= 3 && IsHexDigit(s[0]) && IsHexDigit(s[1]) && IsMacSeparator(s[2]) && MatchesMacPattern(s[3..], n - 1)
  }

  /** `isValidMacAddress`: six hex pairs joined by `:` or `-`, the separators
      free to differ from one another. */
  predicate IsValidMacAddress(s: string)
  {
    MatchesMacPattern(s, 5)
  }

  /** The same pattern by position: 17 characters, every third one (from the
      third) a separator and all others hex digits. */
  predicate MacShape(s: string, n: nat)
  {
    && |s| == 3 * n + 2
    && forall i :: 0 <= i < |s| ==> if i % 3 == 2 then IsMacSeparator(s[i]) else IsHexDigit(s[i])
  }

  lemma {:induction false} MacPatternIsShape(s: string, n: nat)
    ensures MatchesMacPattern(s, n) <==> MacShape(s, n)
  {
    if n > 0 && |s| >= 3 {
      MacPatternIsShape(s[3..], n - 1);
      if MacShape(s, n) {
        forall i | 0 <= i < |s[3..]|
          ensures if i % 3 == 2 then IsMacSeparator(s[3..][i]) else IsHexDigit(s[3..][i])
        {
          assert s[3..][i] == s[i + 3];
          assert (i + 3) % 3 == i % 3;
        }
      }
      if MatchesMacPattern(s, n) {
        forall i | 3 <= i < |s| ensures if i % 3 == 2 then IsMacSeparator(s[i]) else IsHexDigit(s[i]) {
          assert s[i] == s[3..][i - 3];
          assert (i - 3) % 3 == i % 3;
        }
      }
    }
  }

  /** A valid MAC address is 17 characters with separators exactly at
      positions 2, 5, 8, 11 and 14. */
  lemma ValidMacShape(s: string)
    ensures IsValidMacAddress(s) <==> MacShape(s, 5)
  {
    MacPatternIsShape(s, 5);
  }

  /** `isValidRSSI`: an integer number from -100 to 0. A value that is not a
      number fails `Number.isInteger`. */
  predicate IsValidRssi(v: Json)
  {
    v.JNum? && v.n == v.n.Floor as real && -100.0 <= v.n <= 0.0
  }

  // ---------------------------------------------------------------------------
  // One scan

  datatype Problem =
    | EndpointIdRequired
    | MacRequired
    | MacFormat
    | RssiRequired
    | RssiRange
    | TimestampRequired
    | TimestampFormat

  /** `Scan <index>: <problem>`. */
  datatype ScanError = ScanError(index: nat, problem: Problem)

  /** Whether a scan has the problem. `validDate` stands for `isValidTimestamp`
      (whether `new Date(value)` is a real date). */
  predicate HasProblem(scan: Json, p: Problem, validDate: Json -> bool)
  {
    var endpointId := Prop(scan, "endpoint_id");
    var mac := Prop(scan, "mac");
    var rssi := Prop(scan, "rssi");
    var timestamp := Prop(scan, "timestamp");
    match p
    case EndpointIdRequired => !Truthy(endpointId) || !IsString(endpointId)
    case MacRequired => !Truthy(mac) || !IsString(mac)
    case MacFormat => Truthy(mac) && IsString(mac) && !IsValidMacAddress(mac.value.s)
    case RssiRequired => rssi.None? || rssi.value.JNull?
    case RssiRange => rssi.Some? && !rssi.value.JNull? && !IsValidRssi(rssi.value)
    case TimestampRequired => !Truthy(timestamp)
    case TimestampFormat => Truthy(timestamp) && !validDate(timestamp.value)
  }

  /** The problems of the scan at `index`, in the order the route checks them. */
  function ScanErrors(index: nat, scan: Json, validDate: Json -> bool): (es: seq<ScanError>)
    ensures |es| <= 4
    ensures forall k :: 0 <= k < |es| ==> es[k].index == index
  {
    var endpointId := Prop(scan, "endpoint_id");
    var mac := Prop(scan, "mac");
    var rssi := Prop(scan, "rssi");
    var timestamp := Prop(scan, "timestamp");
    (if !Truthy(endpointId) || !IsString(endpointId) then [ScanError(index, EndpointIdRequired)] else [])
    + (if !Truthy(mac) || !IsString(mac) then [ScanError(index, MacRequired)]
       else if !IsValidMacAddress(mac.value.s) then [ScanError(index, MacFormat)] else [])
    + (if rssi.None? || rssi.value.JNull? then [ScanError(index, RssiRequired)]
       else if !IsValidRssi(rssi.value) then [ScanError(index, RssiRange)] else [])
    + (if !Truthy(timestamp) then [ScanError(index, TimestampRequired)]
       else if !validDate(timestamp.value) then [ScanError(index, TimestampFormat)] else [])
  }

  /** The errors of a scan are exactly its problems, each once. */
  lemma ScanErrorsMembers(index: nat, scan: Json, validDate: Json -> bool)
    ensures forall e :: e in ScanErrors(index, scan, validDate) <==> e.index == index && HasProblem(scan, e.problem, validDate)
  {
  }

  /** A scan that passes every check. */
  predicate ValidScan(scan: Json, validDate: Json -> bool)
  {
    var endpointId := Prop(scan, "endpoint_id");
    var mac := Prop(scan, "mac");
    var rssi := Prop(scan, "rssi");
    var timestamp := Prop(scan, "timestamp");
    && IsString(endpointId) && endpointId.value.s != ""
    && IsString(mac) && IsValidMacAddress(mac.value.s)
    && rssi.Some? && IsValidRssi(rssi.value)
    && Truthy(timestamp) && validDate(timestamp.value)
  }

  /** A scan has no problem exactly when it is valid. */
  lemma NoErrorsIffValid(index: nat, scan: Json, validDate: Json -> bool)
    ensures ScanErrors(index, scan, validDate) == [] <==> ValidScan(scan, validDate)
  {
    ScanErrorsMembers(index, scan, validDate);
    if ScanErrors(index, scan, validDate) == [] {
      var mac := Prop(scan, "mac");
      assert !HasProblem(scan, MacRequired, validDate) by {
        assert ScanError(index, MacRequired) !in ScanErrors(index, scan, validDate);
      }
      assert !HasProblem(scan, MacFormat, validDate) by {
        assert ScanError(index, MacFormat) !in ScanErrors(index, scan, validDate);
      }
      assert !HasProblem(scan, EndpointIdRequired, validDate) by {
        assert ScanError(index, EndpointIdRequired) !in ScanErrors(index, scan, validDate);
      }
      assert !HasProblem(scan, RssiRequired, validDate) by {
        assert ScanError(index, RssiRequired) !in ScanErrors(index, scan, validDate);
      }
      assert !HasProblem(scan, RssiRange, validDate) by {
        assert ScanError(index, RssiRange) !in ScanErrors(index, scan, validDate);
      }
      assert !HasProblem(scan, TimestampRequired, validDate) by {
        assert ScanError(index, TimestampRequired) !in ScanErrors(index, scan, validDate);
      }
      assert !HasProblem(scan, TimestampFormat, validDate) by {
        assert ScanError(index, TimestampFormat) !in ScanErrors(index, scan, validDate);
      }
    }
  }

  /** The stored row of a valid scan. */
  datatype StoredScan = StoredScan(endpointId: string, mac: string, rssi: int, timestamp: Json)

  function Stored(scan: Json, validDate: Json -> bool): (s: StoredScan)
    requires ValidScan(scan, validDate)
    ensures s.endpointId == Prop(scan, "endpoint_id").value.s && s.endpointId != ""
    ensures s.mac == Prop(scan, "mac").value.s && IsValidMacAddress(s.mac)
    ensures s.rssi as real == Prop(scan, "rssi").value.n && -100 <= s.rssi <= 0
    ensures s.timestamp == Prop(scan, "timestamp").value
  {
    StoredScan(Prop(scan, "endpoint_id").value.s, Prop(scan, "mac").value.s,
      Prop(scan, "rssi").value.n.Floor, Prop(scan, "timestamp").value)
  }

  // ---------------------------------------------------------------------------
  // The batch

  /** The problems of a batch, scan by scan in order. */
  function BatchErrors(scans: seq<Json>, validDate: Json -> bool): (es: seq<ScanError>)
    ensures forall k :: 0 <= k < |es| ==> es[k].index < |scans|
  {
    if |scans| == 0 then []
    else
      var n := |scans| - 1;
      BatchErrors(scans[..n], validDate) + ScanErrors(n, scans[n], validDate)
  }

  /** Every reported error names a scan that has that problem, and every
      problem of every scan is reported. */
  lemma {:induction false} BatchErrorsMembers(scans: seq<Json>, validDate: Json -> bool)
    ensures forall e :: e in BatchErrors(scans, validDate) <==>
      e.index < |scans| && HasProblem(scans[e.index], e.problem, validDate)
  {
    if |scans| > 0 {
      var n := |scans| - 1;
      var prefix := scans[..n];
      BatchErrorsMembers(prefix, validDate);
      ScanErrorsMembers(n, scans[n], validDate);
      forall e ensures e in BatchErrors(scans, validDate) <==>
        e.index < |scans| && HasProblem(scans[e.index], e.problem, validDate)
      {
        if e.index < n {
          assert prefix[e.index] == scans[e.index];
        }
      }
    }
  }

  /** A batch has no problem exactly when every scan in it is valid. */
  lemma {:induction false} BatchErrorsEmpty(scans: seq<Json>, validDate: Json -> bool)
    ensures BatchErrors(scans, validDate) == [] <==> AllValid(scans, validDate)
  {
    if |scans| > 0 {
      var n := |scans| - 1;
      BatchErrorsEmpty(scans[..n], validDate);
      NoErrorsIffValid(n, scans[n], validDate);
      AllValidSnoc(scans, validDate);
    }
  }

  lemma AllValidSnoc(scans: seq<Json>, validDate: Json -> bool)
    requires |scans| > 0
    ensures AllValid(scans, validDate) <==>
      AllValid(scans[..|scans| - 1], validDate) && ValidScan(scans[|scans| - 1], validDate)
  {
    var n := |scans| - 1;
    if AllValid(scans[..n], validDate) && ValidScan(scans[n], validDate) {
      forall i | 0 <= i < |scans| ensures ValidScan(scans[i], validDate) {
        if i < n {
          assert scans[..n][i] == scans[i];
        }
      }
    }
    if AllValid(scans, validDate) {
      forall i | 0 <= i < n ensures ValidScan(scans[..n][i], validDate) {
        assert scans[..n][i] == scans[i];
      }
    }
  }

  function StoredAll(scans: seq<Json>, validDate: Json -> bool): (rows: seq<StoredScan>)
    requires forall i :: 0 <= i < |scans| ==> ValidScan(scans[i], validDate)
    ensures |rows| == |scans|
    ensures forall i :: 0 <= i < |scans| ==> rows[i] == Stored(scans[i], validDate)
  {
    seq(|scans|, i requires 0 <= i < |scans| => Stored(scans[i], validDate))
  }

  datatype IngestResponse =
    | ServerError
    | ValidationFailed(errors: seq<ScanError>)
    | Created(rows: seq<StoredScan>)

  /** The `POST` handler from the parsed body up to the insert: destructuring a
      `null` scan throws (500); any problem in any scan fails the whole batch
      (400) with every problem listed; otherwise every scan is stored, in
      order (201). */
  method Ingest(body: Json, validDate: Json -> bool) returns (r: IngestResponse)
    ensures var scans := Batch(body);
      && (r.ServerError? <==> exists i :: 0 <= i < |scans| && scans[i].JNull?)
      && (r.ValidationFailed? ==> r.errors == BatchErrors(scans, validDate) && |r.errors| > 0)
      && (r.ValidationFailed? <==> !r.ServerError? && !AllValid(scans, validDate))
      && (r.Created? ==> AllValid(scans, validDate) && r.rows == StoredAll(scans, validDate))
  {
    var scans := Batch(body);
    // A null scan throws as soon as the loop reaches it, whatever came before.
    if exists k :: 0 <= k < |scans| && scans[k].JNull? {
      return ServerError;
    }
    var errors: seq<ScanError> := [];
    var valid: seq<StoredScan> := [];
    var i := 0;
    while i < |scans|
      invariant 0 <= i <= |scans|
      invariant errors == BatchErrors(scans[..i], validDate)
      invariant errors == [] ==> AllValid(scans[..i], validDate) && valid == StoredAll(scans[..i], validDate)
    {
      errors, valid := CheckScan(scans, i, validDate, errors, valid);
      i := i + 1;
    }
    assert scans[..i] == scans;
    BatchErrorsEmpty(scans, validDate);
    if errors != [] {
      return ValidationFailed(errors);
    }
    return Created(valid);
  }

  /** One turn of the ingest loop: the scan's problems join the errors, and
      while there are none the scan's row joins the rows. */
  method CheckScan(scans: seq<Json>, i: int, validDate: Json -> bool, errors: seq<ScanError>, valid: seq<StoredScan>)
    returns (errors': seq<ScanError>, valid': seq<StoredScan>)
    requires 0 <= i < |scans|
    requires errors == BatchErrors(scans[..i], validDate)
    requires errors == [] ==> AllValid(scans[..i], validDate) && valid == StoredAll(scans[..i], validDate)
    ensures errors' == BatchErrors(scans[..i + 1], validDate)
    ensures errors' == [] ==> AllValid(scans[..i + 1], validDate) && valid' == StoredAll(scans[..i + 1], validDate)
  {
    IngestStep(scans, i, validDate, errors, valid);
    var scanErrors := ScanErrors(i, scans[i], validDate);
    valid' := valid;
    if errors == [] && scanErrors == [] {
      valid' := valid + [Stored(scans[i], validDate)];
    }
    errors' := errors + scanErrors;
  }

  predicate AllValid(scans: seq<Json>, validDate: Json -> bool)
  {
    forall i :: 0 <= i < |scans| ==> ValidScan(scans[i], validDate)
  }

  /** One turn of the ingest loop keeps its invariant: the errors so far are
      those of the scans checked, and while there are none, the rows kept are
      those of the scans checked. */
  lemma IngestStep(scans: seq<Json>, i: int, validDate: Json -> bool, errors: seq<ScanError>, valid: seq<StoredScan>)
    requires 0 <= i < |scans|
    requires errors == BatchErrors(scans[..i], validDate)
    requires errors == [] ==> AllValid(scans[..i], validDate) && valid == StoredAll(scans[..i], validDate)
    ensures var se := ScanErrors(i, scans[i], validDate);
      && errors + se == BatchErrors(scans[..i + 1], validDate)
      && (errors == [] && se == [] ==> ValidScan(scans[i], validDate))
      && (errors == [] && se == [] ==>
        AllValid(scans[..i + 1], validDate)
        && valid + [Stored(scans[i], validDate)] == StoredAll(scans[..i + 1], validDate))
  {
    BatchStep(scans, i, validDate);
    if errors == [] && ScanErrors(i, scans[i], validDate) == [] {
      NoErrorsIffValid(i, scans[i], validDate);
      StoredStep(scans, i, validDate);
    }
  }

  /** Checking one more scan appends its problems. */
  lemma BatchStep(scans: seq<Json>, i: int, validDate: Json -> bool)
    requires 0 <= i < |scans|
    ensures BatchErrors(scans[..i + 1], validDate) == BatchErrors(scans[..i], validDate) + ScanErrors(i, scans[i], validDate)
  {
    assert scans[..i + 1][..i] == scans[..i];
  }

  /** Storing one more valid scan appends its row. */
  lemma StoredStep(scans: seq<Json>, i: int, validDate: Json -> bool)
    requires 0 <= i < |scans|
    requires AllValid(scans[..i], validDate) && ValidScan(scans[i], validDate)
    ensures AllValid(scans[..i + 1], validDate)
    ensures StoredAll(scans[..i + 1], validDate) == StoredAll(scans[..i], validDate) + [Stored(scans[i], validDate)]
  {
    var p := scans[..i];
    var q := scans[..i + 1];
    forall k | 0 <= k < i + 1 ensures ValidScan(q[k], validDate) {
      if k < i {
        assert q[k] == p[k];
      }
    }
    var a := StoredAll(q, validDate);
    var b := StoredAll(p, validDate) + [Stored(scans[i], validDate)];
    forall k | 0 <= k < |a| ensures a[k] == b[k] {
      if k < i {
        assert q[k] == p[k];
      }
    }
  }

}
