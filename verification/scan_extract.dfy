/** The stand-alone tcpdump extractor: the same three searches as the
    aggregating parser, with the capture time written under `ts`. */
module ScanExtract {
  import opened Wrappers
  import opened Text
  import opened JsonValues
  import opened Tcpdump
  import ParserScan

  /** `normal_mac`: each letter of the address in lower case, everything else
      kept. */
  function NormalMac(m: string): (r: string)
    ensures |r| == |m|
    ensures forall i :: 0 <= i < |m| ==> r[i] == LowerChar(m[i])
    ensures forall i :: 0 <= i < |m| ==> !IsUpper(r[i])
  {
    LowerIsIdempotent(m);
    Lower(m)
  }

  /** `parse_line`: `None` unless the timestamp, the signal and an address are
      all found; otherwise `{mac, rssi, ts}`, the transmitter address
      preferred. */
  function ParseLine(line: string): (r: Option<Json>)
    ensures r.None? <==> TimestampText(line).None? || Rssi(line).None? || MacText(line).None?
    ensures r.Some? ==> r.value.JObj? && r.value.fields.Keys == {"mac", "rssi", "ts"}
    ensures r.Some? ==> r.value.fields["mac"] == JStr(NormalMac(MacText(line).value))
    ensures r.Some? ==> r.value.fields["rssi"] == JNum(Rssi(line).value as real)
    ensures r.Some? ==> r.value.fields["ts"] == JNum(TimestampValue(TimestampText(line).value))
  {
    match ReadLine(line)
    case None => None
    case Some(reading) => Some(Keyed(reading, "ts"))
  }

  /** The extractor finds a record exactly when the aggregating parser does,
      with the same address and signal, and the parser's `timestamp` as
      `ts`. */
  lemma ParseLineRenamesTimestamp(line: string)
    ensures ParseLine(line).None? <==> ParserScan.ParseLine(line).None?
    ensures ParseLine(line).Some? ==>
      var a := ParseLine(line).value.fields;
      var b := ParserScan.ParseLine(line).value.fields;
      a["mac"] == b["mac"] && a["rssi"] == b["rssi"] && a["ts"] == b["timestamp"]
  {
  }

  /** A line built from its parts parses back to those parts. */
  lemma ParseCaptureLine(ts: string, pre: string, rssi: int, mid: string, tag: string, mac: string, post: string)
    requires IsTimestampText(ts)
    requires -999 <= rssi <= 999
    requires |pre| > 0 && !IsDigit(pre[0]) && !IsWordChar(pre[|pre| - 1]) && pre[|pre| - 1] != '-'
    requires Lacks(pre, Signal[0]) && Lacks(pre, ':')
    requires |mid| > 0 && !IsWordChar(mid[|mid| - 1]) && Lacks(mid, ':')
    requires tag == TransmitterTag || tag == SourceTag
    requires IsMacText(mac)
    requires |post| == 0 || !IsWordChar(post[0])
    requires tag == SourceTag ==> Lacks(pre, 'T') && Lacks(mid, 'T') && Lacks(post, 'T')
    ensures ParseLine(CaptureLine(ts, pre, rssi, mid, tag, mac, post))
      == Some(JObj(map["mac" := JStr(NormalMac(mac)), "rssi" := JNum(rssi as real), "ts" := JNum(TimestampValue(ts))]))
  {
    ReadCaptureLine(ts, pre, rssi, mid, tag, mac, post);
  }
}
