/** The aggregating tcpdump parser: `normal_mac`, `parse_line` with the
    `timestamp` key, and the compatibility record written for each aggregate
    the `MacAggregator` emits. */
module ParserScan {
  import opened Wrappers
  import opened Text
  import opened JsonValues
  import opened Tcpdump
  import Aggregator

  /** `normal_mac`: the address in lower case. */
  function NormalMac(m: string): (r: string)
    ensures |r| == |m|
    ensures forall i :: 0 <= i < |m| ==> !IsUpper(r[i])
    ensures forall i :: 0 <= i < |m| ==> !IsUpper(m[i]) ==> r[i] == m[i]
    ensures forall i :: 0 <= i < |m| ==> IsUpper(m[i]) ==> r[i] as int == m[i] as int + 32
  {
    Lower(m)
  }

  /** Normalising twice is normalising once. */
  lemma NormalMacIdempotent(m: string)
    ensures NormalMac(NormalMac(m)) == NormalMac(m)
  {
    LowerIsIdempotent(m);
  }

  /** `parse_line`: `None` unless the timestamp, the signal and an address are
      all found; otherwise `{mac, rssi, timestamp}`. */
  function ParseLine(line: string): (r: Option<Json>)
    ensures r.None? <==> TimestampText(line).None? || Rssi(line).None? || MacText(line).None?
    ensures r.Some? ==> r.value.JObj? && r.value.fields.Keys == {"mac", "rssi", "timestamp"}
    ensures r.Some? ==> r.value.fields["mac"] == JStr(NormalMac(MacText(line).value))
    ensures r.Some? ==> r.value.fields["rssi"] == JNum(Rssi(line).value as real)
    ensures r.Some? ==> r.value.fields["timestamp"] == JNum(TimestampValue(TimestampText(line).value))
  {
    match ReadLine(line)
    case None => None
    case Some(reading) => Some(Keyed(reading, "timestamp"))
  }

  /** A line built from its parts parses back to those parts. */
  lemma ParseCaptureLine(ts: string, pre: string, rssi: int, mid: string, tag: string, mac: string, post: string)
    requires IsTimestampText(ts)
    requires -999 <= rssi <= 999
    requires |pre| > 0 && !IsDigit(pre[0]) && !IsWordChar(pre[|pre| - 1]) && pre[|pre| - 1] != '-'
    requires Lacks(pre, Signal[0]) && Lacks(pre, ':')
    requires |mid| > 0 && !IsWordChar(mid[|mid| - 1]) && Lacks(mid, ':')
    requires tag == TransmitterTag || tag == SourceTag
    requires IsMacText(mac)
    requires |post| == 0 || !IsWordChar(post[0])
    requires tag == SourceTag ==> Lacks(pre, 'T') && Lacks(mid, 'T') && Lacks(post, 'T')
    ensures ParseLine(CaptureLine(ts, pre, rssi, mid, tag, mac, post))
      == Some(JObj(map["mac" := JStr(NormalMac(mac)), "rssi" := JNum(rssi as real), "timestamp" := JNum(TimestampValue(ts))]))
  {
    ReadCaptureLine(ts, pre, rssi, mid, tag, mac, post);
  }

  // ---------------------------------------------------------------------------
  // The compatibility record

  /** Python's `round` to an integer: the nearest integer, ties to the even
      one. */
  function RoundHalfEven(x: real): (n: int)
    ensures -0.5 <= x - n as real <= 0.5
    ensures x - n as real == 0.5 || x - n as real == -0.5 ==> n % 2 == 0
  {
    var f := x.Floor;
    var d := x - f as real;
    if d < 0.5 then f
    else if d > 0.5 then f + 1
    else if f % 2 == 0 then f
    else f + 1
  }

  /** The rounding of a value lies between any integer bounds of the value. */
  lemma RoundWithin(x: real, lo: int, hi: int)
    requires lo as real <= x <= hi as real
    ensures lo <= RoundHalfEven(x) <= hi
  {
  }

  /** `_emit_json_compat`: only the address, the rounded median signal and the
      time of the window's last sample. */
  function Compat(rec: Aggregator.Record): (j: Json)
    ensures j.JObj? && j.fields.Keys == {"mac", "rssi", "timestamp"}
    ensures j.fields["mac"] == JStr(rec.mac) && j.fields["timestamp"] == JNum(rec.lastSeen)
    ensures j.fields["rssi"].JNum? && -0.5 <= rec.medianRssi - j.fields["rssi"].n <= 0.5
  {
    JObj(map["mac" := JStr(rec.mac), "rssi" := JNum(RoundHalfEven(rec.medianRssi) as real), "timestamp" := JNum(rec.lastSeen)])
  }

  /** A window whose signals are integers between `lo` and `hi` is reported
      with a signal between `lo` and `hi`. */
  lemma CompatRssiWithin(mac: string, w: Aggregator.Window, windowS: real, lo: int, hi: int)
    requires |w.samples| > 0
    requires forall i :: 0 <= i < |w.samples| ==> lo as real <= w.samples[i].rssi <= hi as real
    ensures var j := Compat(Aggregator.Summarize(mac, w, windowS));
      lo as real <= j.fields["rssi"].n <= hi as real
  {
    var rec := Aggregator.Summarize(mac, w, windowS);
    Aggregator.SummarizeWithin(mac, w, windowS, lo as real, hi as real);
    RoundWithin(rec.medianRssi, lo, hi);
  }

  // ---------------------------------------------------------------------------
  // The parser's test cases, as lemmas

  /** A transmitter line yields its lower-cased address, signal and time; the
      line is the test's, cut at the token boundaries. */
  lemma ParsesTransmitterLine()
    ensures ParseLine("1700000000" + "." + "123" + " 802.11 Probe Request " + "-50" + "dBm signal" + " antenna 1 "
      + "TA:" + "AA:BB:CC:DD:EE:FF" + " more stuff")
      == Some(JObj(map["mac" := JStr("aa:bb:cc:dd:ee:ff"), "rssi" := JNum(-50.0), "timestamp" := JNum(1700000000.123)]))
  {
    assert Decimal(123) == "123";
    TestTime("123", 123);
    TestSeparators();
    TransmitterTokens();
    ParseCaptureLine("1700000000" + "." + "123", " 802.11 Probe Request ", -50, " antenna 1 ", TransmitterTag, "AA:BB:CC:DD:EE:FF", " more stuff");
  }

  /** Without a transmitter, the source address is taken. */
  lemma ParsesSourceLine()
    ensures ParseLine("1700000000" + "." + "456" + " 802.11 Probe Request " + "-42" + "dBm signal" + " antenna 1 "
      + "SA:" + "11:22:33:44:55:66" + " more stuff")
      == Some(JObj(map["mac" := JStr("11:22:33:44:55:66"), "rssi" := JNum(-42.0), "timestamp" := JNum(1700000000.456)]))
  {
    assert Decimal(456) == "456";
    TestTime("456", 456);
    TestSeparators();
    SourceTokens();
    ParseCaptureLine("1700000000" + "." + "456", " 802.11 Probe Request ", -42, " antenna 1 ", SourceTag, "11:22:33:44:55:66", " more stuff");
  }

  lemma TransmitterTokens()
    ensures SignedDecimal(-50) == "-50"
    ensures IsMacText("AA:BB:CC:DD:EE:FF") && NormalMac("AA:BB:CC:DD:EE:FF") == "aa:bb:cc:dd:ee:ff"
  {
    MinusFifty();
    TransmitterMac();
  }

  lemma MinusFifty()
    ensures SignedDecimal(-50) == "-50"
  {
  }

  lemma TransmitterMac()
    ensures IsMacText("AA:BB:CC:DD:EE:FF") && NormalMac("AA:BB:CC:DD:EE:FF") == "aa:bb:cc:dd:ee:ff"
  {
  }

  lemma SourceTokens()
    ensures SignedDecimal(-42) == "-42"
    ensures IsMacText("11:22:33:44:55:66") && NormalMac("11:22:33:44:55:66") == "11:22:33:44:55:66"
  {
    MinusFortyTwo();
    SourceMac();
  }

  lemma MinusFortyTwo()
    ensures SignedDecimal(-42) == "-42"
  {
  }

  lemma SourceMac()
    ensures IsMacText("11:22:33:44:55:66") && NormalMac("11:22:33:44:55:66") == "11:22:33:44:55:66"
  {
  }

  lemma TestTime(millis: string, m: nat)
    requires |millis| == 3 && AllDigits(millis) && DigitsValue(millis) == m
    ensures IsTimestampText("1700000000" + "." + millis)
    ensures TimestampValue("1700000000" + "." + millis) == 1700000000.0 + m as real / 1000.0
  {
    TestSeconds();
    TimestampValueOf("1700000000", millis);
    Thousandths("1700000000" + "." + millis, DigitsValue("1700000000"), DigitsValue(millis), Pow10Nat(|millis|));
  }

  lemma Thousandths(t: string, w: nat, m: nat, p: nat)
    requires IsTimestampText(t) && w == 1700000000 && p == Pow10Nat(3)
    requires TimestampValue(t) == w as real + m as real / p as real
    ensures TimestampValue(t) == 1700000000.0 + m as real / 1000.0
  {
    assert p == 1000;
  }

  lemma TestSeconds()
    ensures AllDigits("1700000000") && DigitsValue("1700000000") == 1700000000
  {
    TestSecondsText();
  }

  lemma TestSecondsText()
    ensures Decimal(1700000000) == "1700000000"
  {
    assert Decimal(17) == "17";
    assert Decimal(170) == "170";
    assert Decimal(1700) == "1700";
    assert Decimal(17000) == "17000";
    assert Decimal(170000) == "170000";
    assert Decimal(1700000) == "1700000";
    assert Decimal(17000000) == "17000000";
    assert Decimal(170000000) == "170000000";
  }

  lemma TestSeparators()
    ensures Lacks(" 802.11 Probe Request ", Signal[0]) && Lacks(" 802.11 Probe Request ", ':')
    ensures Lacks(" 802.11 Probe Request ", 'T') && Lacks(" antenna 1 ", 'T') && Lacks(" more stuff", 'T')
    ensures Lacks(" antenna 1 ", ':')
  {
  }

  /** A line missing any of the three fields yields nothing; the lines are the
      test's, cut in two. */
  lemma MissingFieldsYieldNothing()
    ensures ParseLine("1700000000.123 some text " + "TA:AA:BB:CC:DD:EE:FF").None?
    ensures ParseLine("1700000000.123 802.11 Probe Request " + "-60dBm signal antenna 1").None?
    ensures ParseLine("no-timestamp-here " + "-60dBm signal TA:AA:BB:CC:DD:EE:FF").None?
  {
    MissingSignal("1700000000.123 some text ", "TA:AA:BB:CC:DD:EE:FF");
    MissingAddress("1700000000.123 802.11 Probe Request ", "-60dBm signal antenna 1");
    var e := "no-timestamp-here ";
    var f := "-60dBm signal TA:AA:BB:CC:DD:EE:FF";
    assert (e + f)[0] == e[0];
    TimestampNeedsLeadingDigit(e + f);
  }

  lemma MissingSignal(a: string, b: string)
    requires a == "1700000000.123 some text " && b == "TA:AA:BB:CC:DD:EE:FF"
    ensures Rssi(a + b).None?
  {
    assert Lacks(a, Signal[0]) && Lacks(b, Signal[0]);
    LacksAppend(a, b, Signal[0]);
    NoRssiWithoutD(a + b);
  }

  lemma MissingAddress(c: string, d: string)
    requires c == "1700000000.123 802.11 Probe Request " && d == "-60dBm signal antenna 1"
    ensures MacText(c + d).None?
  {
    assert Lacks(c, 'T') && Lacks(d, 'T') && Lacks(c, 'S') && Lacks(d, 'S');
    LacksAppend(c, d, 'T');
    LacksAppend(c, d, 'S');
    NoMacWithoutTag(c + d, TransmitterTag);
    NoMacWithoutTag(c + d, SourceTag);
  }

  /** `normal_mac` lower-cases whatever the case of its input. */
  lemma NormalMacLowercases()
    ensures NormalMac("AA:BB:CC:DD:EE:FF") == "aa:bb:cc:dd:ee:ff"
    ensures NormalMac("aa:bb:cc:dd:ee:ff") == "aa:bb:cc:dd:ee:ff"
    ensures NormalMac("Aa:Bb:Cc:Dd:Ee:Ff") == "aa:bb:cc:dd:ee:ff"
  {
    TransmitterMac();
    NormalMacIdempotent("AA:BB:CC:DD:EE:FF");
    MixedCaseMac();
  }

  lemma MixedCaseMac()
    ensures NormalMac("Aa:Bb:Cc:Dd:Ee:Ff") == "aa:bb:cc:dd:ee:ff"
  {
  }
}
