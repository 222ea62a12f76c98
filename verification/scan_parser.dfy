/** The second stand-alone tcpdump parser: `lower_mac` and a `parse_line`
    that writes the capture time under `ts`. */
module ScanParser {
  import opened Wrappers
  import opened Text
  import opened JsonValues
  import opened Tcpdump
  import ParserScan
  import ScanExtract

  /** `lower_mac`: the address as the aggregating parser normalises it, which
      lowering again leaves unchanged. */
  function LowerMac(m: string): (r: string)
    ensures r == ParserScan.NormalMac(m)
    ensures Lower(r) == r
  {
    LowerIsIdempotent(m);
    Lower(m)
  }

  /** `parse_line`: `None` unless the timestamp, the signal and an address are
      all found; otherwise `{mac, rssi, ts}`. */
  function ParseLine(line: string): (r: Option<Json>)
    ensures r.None? <==> TimestampText(line).None? || Rssi(line).None? || MacText(line).None?
    ensures r.Some? ==> r.value.JObj? && r.value.fields.Keys == {"mac", "rssi", "ts"}
    ensures r.Some? ==> r.value.fields["mac"] == JStr(LowerMac(MacText(line).value))
  {
    var ts := TimestampText(line);
    var rssi := Rssi(line);
    var mac := MacText(line);
    if ts.None? || rssi.None? || mac.None? then None
    else Some(JObj(map["mac" := JStr(LowerMac(mac.value)), "rssi" := JNum(rssi.value as real),
                       "ts" := JNum(TimestampValue(ts.value))]))
  }

  /** The two stand-alone parsers give the same answer on every line. */
  lemma SameAsScanExtract(line: string)
    ensures ParseLine(line) == ScanExtract.ParseLine(line)
  {
  }
}
