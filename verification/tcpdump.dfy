/** The three regular expressions the endpoint's tcpdump line parsers share,
    as search functions over the line, and the reading they extract together:
    - the timestamp `^(\d+\.\d{3,})`, anchored at the start of the line;
    - the signal `(-?\d{1,3})dBm signal`, found anywhere;
    - the transmitter `\bTA:([0-9A-Fa-f:]{17})\b`, else the source
      `\bSA:([0-9A-Fa-f:]{17})\b`.
    Each search returns the leftmost match, as Python's `re.search` does. */
module Tcpdump {
  import opened Wrappers
  import opened Text
  import opened JsonValues

  /** The length of the run of decimal digits starting at `i`. */
  function DigitRun(s: string, i: nat): (n: nat)
    requires i <= |s|
    ensures i + n <= |s|
    ensures forall k :: i <= k < i + n ==> IsDigit(s[k])
    ensures i + n == |s| || !IsDigit(s[i + n])
    decreases |s| - i
  {
    if i < |s| && IsDigit(s[i]) then 1 + DigitRun(s, i + 1) else 0
  }

  lemma DigitRunOf(s: string, i: nat, n: nat)
    requires i + n <= |s|
    requires forall k :: i <= k < i + n ==> IsDigit(s[k])
    requires i + n == |s| || !IsDigit(s[i + n])
    ensures DigitRun(s, i) == n
    decreases n
  {
    if n > 0 {
      DigitRunOf(s, i + 1, n - 1);
    }
  }

  // ---------------------------------------------------------------------------
  // The timestamp

  /** The language of the timestamp group: digits, a point, three or more
      digits. */
  predicate IsTimestampText(t: string)
  {
    exists a :: 0 < a < |t| - 3 && t[a] == '.' && AllDigits(t[..a]) && AllDigits(t[a + 1..])
  }

  /** `TS_RE.search(line)`: the greedy match at the start of the line. */
  function TimestampText(s: string): (t: Option<string>)
    ensures t.Some? ==> IsTimestampText(t.value) && StartsWith(s, t.value)
    ensures t.Some? ==> |t.value| == |s| || !IsDigit(s[|t.value|])
  {
    var a := DigitRun(s, 0);
    if a >= 1 && a < |s| && s[a] == '.' then
      var b := DigitRun(s, a + 1);
      if b >= 3 then
        var t := s[..a + 1 + b];
        assert t[..a] == s[..a] && t[a + 1..] == s[a + 1..a + 1 + b];
        Some(t)
      else None
    else None
  }

  /** A line that starts with a timestamp, followed by anything but another
      digit, yields exactly that timestamp; a line starting otherwise yields
      none. */
  lemma TimestampTextOf(t: string, rest: string)
    requires IsTimestampText(t)
    requires |rest| == 0 || !IsDigit(rest[0])
    ensures TimestampText(t + rest) == Some(t)
  {
    var s := t + rest;
    var a :| 0 < a < |t| - 3 && t[a] == '.' && AllDigits(t[..a]) && AllDigits(t[a + 1..]);
    forall k | 0 <= k < a ensures IsDigit(s[k]) {
      assert s[k] == t[..a][k];
    }
    DigitRunOf(s, 0, a);
    forall k | a + 1 <= k < |t| ensures IsDigit(s[k]) {
      assert s[k] == t[a + 1..][k - a - 1];
    }
    DigitRunOf(s, a + 1, |t| - a - 1);
    assert s[..|t|] == t;
  }

  lemma TimestampNeedsLeadingDigit(s: string)
    requires |s| == 0 || !IsDigit(s[0])
    ensures TimestampText(s).None?
  {
  }

  /** The point of a timestamp text follows its leading digits. */
  lemma TimestampPoint(t: string)
    requires IsTimestampText(t)
    ensures var a := DigitRun(t, 0);
      0 < a < |t| - 3 && t[a] == '.' && AllDigits(t[..a]) && AllDigits(t[a + 1..])
  {
    var a :| 0 < a < |t| - 3 && t[a] == '.' && AllDigits(t[..a]) && AllDigits(t[a + 1..]);
    forall k | 0 <= k < a ensures IsDigit(t[k]) {
      assert t[k] == t[..a][k];
    }
    DigitRunOf(t, 0, a);
  }

  /** `float(text)` of a timestamp: whole seconds plus the fraction. */
  function TimestampValue(t: string): (v: real)
    requires IsTimestampText(t)
    ensures v >= 0.0
  {
    TimestampPoint(t);
    var a := DigitRun(t, 0);
    var frac := t[a + 1..];
    var fraction := DigitsValue(frac) as real / Pow10Nat(|frac|) as real;
    QuotientNonNegative(DigitsValue(frac) as real, Pow10Nat(|frac|) as real);
    DigitsValue(t[..a]) as real + fraction
  }

  lemma QuotientNonNegative(n: real, d: real)
    requires n >= 0.0 && d > 0.0
    ensures n / d >= 0.0
  {
    assert n / d * d == n;
  }

  /** Whole seconds, a point and a fraction of three or more digits form a
      timestamp, read as the seconds plus the fraction. */
  lemma TimestampValueOf(whole: string, frac: string)
    requires |whole| > 0 && AllDigits(whole) && AllDigits(frac) && |frac| >= 3
    ensures IsTimestampText(whole + "." + frac)
    ensures TimestampValue(whole + "." + frac)
      == DigitsValue(whole) as real + DigitsValue(frac) as real / Pow10Nat(|frac|) as real
  {
    var t := whole + "." + frac;
    var a := |whole|;
    assert t[..a] == whole;
    assert t[a + 1..] == frac;
    assert t[a] == '.';
    assert IsTimestampText(t);
    forall k | 0 <= k < a ensures IsDigit(t[k]) {
      assert t[k] == whole[k];
    }
    DigitRunOf(t, 0, a);
  }

  // ---------------------------------------------------------------------------
  // The signal strength

  const Signal := "dBm signal"

  /** The regular expression tried at position `p`: an optional minus, then a
      run of one to three digits directly followed by `dBm signal`. A longer
      run cannot match here, since the greedy repetition leaves a digit where
      `d` must follow. */
  function RssiAt(s: string, p: nat): (r: Option<int>)
    requires p <= |s|
    ensures r.Some? ==> -999 <= r.value <= 999
  {
    var neg := p < |s| && s[p] == '-';
    var q := if neg then p + 1 else p;
    var n := DigitRun(s, q);
    if 1 <= n <= 3 && StartsWith(s[q + n..], Signal) then
      assert DigitsValue(s[q..q + n]) < Pow10Nat(n) <= 1000;
      var v: int := DigitsValue(s[q..q + n]);
      Some(if neg then -v else v)
    else None
  }

  /** The leftmost position from `from` on where the signal matches. */
  function FirstRssiAt(s: string, from: nat): (p: Option<nat>)
    requires from <= |s|
    ensures p.Some? ==> from <= p.value <= |s| && RssiAt(s, p.value).Some?
    ensures p.Some? ==> forall q :: from <= q < p.value ==> RssiAt(s, q).None?
    ensures p.None? ==> forall q :: from <= q <= |s| ==> RssiAt(s, q).None?
    decreases |s| - from
  {
    if RssiAt(s, from).Some? then Some(from)
    else if from == |s| then None
    else
      var r := FirstRssiAt(s, from + 1);
      NoRssiBefore(s, from, r);
      r
  }

  /** A position without a match extends the stretch without one. */
  lemma NoRssiBefore(s: string, from: nat, r: Option<nat>)
    requires from < |s| && RssiAt(s, from).None?
    requires r.Some? ==> from + 1 <= r.value <= |s| && forall q :: from + 1 <= q < r.value ==> RssiAt(s, q).None?
    requires r.None? ==> forall q :: from + 1 <= q <= |s| ==> RssiAt(s, q).None?
    ensures r.Some? ==> forall q :: from <= q < r.value ==> RssiAt(s, q).None?
    ensures r.None? ==> forall q :: from <= q <= |s| ==> RssiAt(s, q).None?
  {
    var end := if r.Some? then r.value - 1 else |s|;
    forall q | from <= q <= end ensures RssiAt(s, q).None? {
      if q > from {
        assert from + 1 <= q;
      }
    }
  }

  /** `int(RSSI_RE.search(line).group(1))`. */
  function Rssi(s: string): Option<int>
  {
    match FirstRssiAt(s, 0)
    case None => None
    case Some(p) => RssiAt(s, p)
  }

  /** A signed value of at most three digits, as tcpdump prints it. */
  function SignedDecimal(v: int): string
  {
    if v < 0 then "-" + Decimal(-v) else Decimal(v)
  }

  lemma DecimalLength(v: nat)
    requires v < 1000
    ensures |Decimal(v)| <= 3
  {
    if v >= 10 {
      DecimalLength(v / 10);
    }
  }

  /** One to three digits followed by `dBm signal`, after a minus or not. */
  lemma RssiAtDigits(s: string, p: nat, neg: bool, n: nat)
    requires 1 <= n <= 3
    requires neg ==> p < |s| && s[p] == '-'
    requires var q := if neg then p + 1 else p;
      q + n <= |s| && AllDigits(s[q..q + n]) && StartsWith(s[q + n..], Signal)
    ensures RssiAt(s, p).Some?
    ensures neg ==> RssiAt(s, p).value == -(DigitsValue(s[p + 1..p + 1 + n]) as int)
    ensures !neg ==> RssiAt(s, p).value == DigitsValue(s[p..p + n]) as int
  {
    var q := if neg then p + 1 else p;
    var d := s[q..q + n];
    assert AllDigits(d);
    forall k | q <= k < q + n ensures IsDigit(s[k]) {
      assert IsDigit(d[k - q]);
      assert s[k] == d[k - q];
    }
    assert s[q + n] == s[q + n..][..|Signal|][0] == Signal[0];
    DigitRunOf(s, q, n);
    assert (p < |s| && s[p] == '-') == neg by {
      if !neg {
        assert s[p] == d[0];
      }
    }
    assert DigitRun(s, q) == n && StartsWith(s[q + n..], Signal);
    var v: int := DigitsValue(d);
    assert RssiAt(s, p).value == if neg then -v else v;
  }

  /** A printed signal token is read back as its value where it stands. */
  lemma RssiAtToken(pre: string, v: int, post: string)
    requires -999 <= v <= 999
    ensures RssiAt(pre + SignedDecimal(v) + Signal + post, |pre|) == Some(v)
  {
    if v < 0 {
      RssiAtNegative(pre, -v, post);
    } else {
      RssiAtNonNegative(pre, v, post);
    }
  }

  lemma RssiAtNegative(pre: string, mag: nat, post: string)
    requires 0 < mag < 1000
    ensures RssiAt(pre + SignedDecimal(-(mag as int)) + Signal + post, |pre|) == Some(-(mag as int))
  {
    var d := Decimal(mag);
    DecimalLength(mag);
    assert SignedDecimal(-(mag as int)) == "-" + d;
    Assoc(pre, "-", d);
    Assoc(pre + "-" + d, Signal, post);
    RssiAtMinusDigits(pre, d, post);
    assert DigitsValue(d) == mag;
  }

  /** A minus and one to three digits before `dBm signal` are read as the
      negated digits. */
  lemma RssiAtMinusDigits(pre: string, d: string, post: string)
    requires 1 <= |d| <= 3 && AllDigits(d)
    ensures RssiAt(pre + "-" + d + (Signal + post), |pre|).Some?
    ensures RssiAt(pre + "-" + d + (Signal + post), |pre|).value == -(DigitsValue(d) as int)
  {
    var lead := pre + "-";
    var rest := Signal + post;
    var s := lead + d + rest;
    Slices(lead, d, rest);
    assert |lead| == |pre| + 1 && s[|pre|] == lead[|pre|] == '-';
    assert StartsWith(rest, Signal) by {
      assert rest[..|Signal|] == Signal;
    }
    var q := |pre| + 1;
    assert s[q..q + |d|] == d;
    RssiAtDigits(s, |pre|, true, |d|);
    assert s[|pre| + 1..|pre| + 1 + |d|] == d;
  }

  lemma RssiAtNonNegative(pre: string, mag: nat, post: string)
    requires mag < 1000
    ensures RssiAt(pre + SignedDecimal(mag) + Signal + post, |pre|) == Some(mag)
  {
    var d := Decimal(mag);
    DecimalLength(mag);
    var s := pre + d + (Signal + post);
    assert pre + SignedDecimal(mag) + Signal + post == s;
    Slices(pre, d, Signal + post);
    RssiAtDigits(s, |pre|, false, |d|);
  }

  /** The middle and the end of a three-part text. */
  lemma Slices(pre: string, token: string, rest: string)
    ensures var s := pre + token + rest;
      s[|pre|..|pre| + |token|] == token && s[|pre| + |token|..] == rest
  {
    var s := pre + token + rest;
    assert s[|pre|..] == token + rest;
  }

  /** Text without a `d` that ends in neither a digit nor a minus holds no
      match: every digit run in it ends inside it, before a character other
      than the `d` of `dBm signal`. */
  lemma NoRssiIn(pre: string, rest: string)
    requires forall k :: 0 <= k < |pre| ==> pre[k] != Signal[0]
    requires |pre| == 0 || (pre[|pre| - 1] != '-' && !IsDigit(pre[|pre| - 1]))
    ensures forall p :: 0 <= p < |pre| ==> RssiAt(pre + rest, p).None?
  {
    var s := pre + rest;
    forall p | 0 <= p < |pre| ensures RssiAt(s, p).None? {
      var q := if p < |s| && s[p] == '-' then p + 1 else p;
      assert s[|pre| - 1] == pre[|pre| - 1];
      assert q < |pre|;
      var n := DigitRun(s, q);
      if n > 0 {
        assert q + n < |pre|;
        assert s[q + n] == pre[q + n];
        assert s[q + n..][0] == s[q + n];
      }
    }
  }

  /** A line whose signal token comes after text without a `d`, that ends in a
      separator, is read as the token's value. */
  lemma RssiOfToken(pre: string, v: int, post: string)
    requires -999 <= v <= 999
    requires forall k :: 0 <= k < |pre| ==> pre[k] != Signal[0]
    requires |pre| == 0 || (pre[|pre| - 1] != '-' && !IsDigit(pre[|pre| - 1]))
    ensures Rssi(pre + SignedDecimal(v) + Signal + post) == Some(v)
  {
    var rest := SignedDecimal(v) + Signal + post;
    Regroup(pre, SignedDecimal(v), Signal, post);
    RssiAtToken(pre, v, post);
    NoRssiIn(pre, rest);
    FirstRssiIs(pre + rest, |pre|);
  }

  /** A match with none before it is the one `search` finds. */
  lemma FirstRssiIs(s: string, p: nat)
    requires p <= |s| && RssiAt(s, p).Some?
    requires forall q :: 0 <= q < p ==> RssiAt(s, q).None?
    ensures Rssi(s) == RssiAt(s, p)
  {
    var first := FirstRssiAt(s, 0);
    assert first.Some?;
    assert first.value == p;
  }

  lemma Assoc(a: string, b: string, c: string)
    ensures a + b + c == a + (b + c)
  {
  }

  lemma Regroup(a: string, b: string, c: string, d: string)
    ensures a + b + c + d == a + (b + c + d)
  {
    Assoc(a, b, c);
    Assoc(a, b + c, d);
  }

  /** A line without a `d` has no signal. */
  lemma NoRssiWithoutD(s: string)
    requires forall k :: 0 <= k < |s| ==> s[k] != Signal[0]
    ensures Rssi(s).None?
  {
    forall p | 0 <= p <= |s| ensures RssiAt(s, p).None? {
      var q := if p < |s| && s[p] == '-' then p + 1 else p;
      var n := DigitRun(s, q);
      if 1 <= n && q + n < |s| {
        assert s[q + n..][0] == s[q + n];
      }
    }
  }

  // ---------------------------------------------------------------------------
  // The MAC address

  predicate IsMacChar(c: char)
  {
    IsHexDigit(c) || c == ':'
  }

  /** `\b` at position `i`: a word character on exactly one side. */
  predicate Boundary(s: string, i: nat)
    requires i <= |s|
  {
    (i > 0 && IsWordChar(s[i - 1])) != (i < |s| && IsWordChar(s[i]))
  }

  /** The length of a MAC group: `{17}` characters. */
  const MacLength := 17

  /** `\b<tag>([0-9A-Fa-f:]{17})\b` tried at position `p`. */
  function MacAt(s: string, tag: string, p: nat): (m: Option<string>)
    requires p <= |s|
    ensures m.Some? ==> |m.value| == MacLength && forall k :: 0 <= k < MacLength ==> IsMacChar(m.value[k])
    ensures m.Some? ==> p + |tag| + MacLength <= |s| && s[p..p + |tag|] == tag
  {
    var start := p + |tag|;
    var end := start + MacLength;
    if end <= |s| && Boundary(s, p) && s[p..start] == tag
      && (forall k :: start <= k < end ==> IsMacChar(s[k])) && Boundary(s, end)
    then
      assert forall k :: 0 <= k < MacLength ==> s[start..end][k] == s[start + k];
      Some(s[start..end])
    else None
  }

  /** The leftmost position from `from` on where the tagged pattern matches. */
  function FirstMacAt(s: string, tag: string, from: nat): (p: Option<nat>)
    requires from <= |s|
    ensures p.Some? ==> from <= p.value <= |s| && MacAt(s, tag, p.value).Some?
    ensures p.Some? ==> forall q :: from <= q < p.value ==> MacAt(s, tag, q).None?
    ensures p.None? ==> forall q :: from <= q <= |s| ==> MacAt(s, tag, q).None?
    decreases |s| - from
  {
    if MacAt(s, tag, from).Some? then Some(from)
    else if from == |s| then None
    else
      var r := FirstMacAt(s, tag, from + 1);
      NoMacBefore(s, tag, from, r);
      r
  }

  /** A position without a match extends the stretch without one. */
  lemma NoMacBefore(s: string, tag: string, from: nat, r: Option<nat>)
    requires from < |s| && MacAt(s, tag, from).None?
    requires r.Some? ==> from + 1 <= r.value <= |s| && forall q :: from + 1 <= q < r.value ==> MacAt(s, tag, q).None?
    requires r.None? ==> forall q :: from + 1 <= q <= |s| ==> MacAt(s, tag, q).None?
    ensures r.Some? ==> forall q :: from <= q < r.value ==> MacAt(s, tag, q).None?
    ensures r.None? ==> forall q :: from <= q <= |s| ==> MacAt(s, tag, q).None?
  {
    var end := if r.Some? then r.value - 1 else |s|;
    forall q | from <= q <= end ensures MacAt(s, tag, q).None? {
      if q > from {
        assert from + 1 <= q;
      }
    }
  }

  /** `re.search` of the tagged pattern: the group of the leftmost match. */
  function FindMac(s: string, tag: string): Option<string>
  {
    match FirstMacAt(s, tag, 0)
    case None => None
    case Some(p) => MacAt(s, tag, p)
  }

  const TransmitterTag := "TA:"
  const SourceTag := "SA:"

  /** `MAC_TA.search(line) or MAC_SA.search(line)`: the transmitter address
      wins whenever the line has one. */
  function MacText(s: string): (m: Option<string>)
    ensures FindMac(s, TransmitterTag).Some? ==> m == FindMac(s, TransmitterTag)
    ensures FindMac(s, TransmitterTag).None? ==> m == FindMac(s, SourceTag)
  {
    var ta := FindMac(s, TransmitterTag);
    if ta.Some? then ta else FindMac(s, SourceTag)
  }

  /** A tagged address standing as its own word is matched where it stands. */
  lemma MacAtToken(pre: string, tag: string, mac: string, post: string)
    requires |tag| > 0 && IsWordChar(tag[0])
    requires |mac| == MacLength && (forall k :: 0 <= k < |mac| ==> IsMacChar(mac[k])) && IsHexDigit(mac[|mac| - 1])
    requires |pre| == 0 || !IsWordChar(pre[|pre| - 1])
    requires |post| == 0 || !IsWordChar(post[0])
    ensures MacAt(pre + tag + mac + post, tag, |pre|) == Some(mac)
  {
    var s := pre + tag + mac + post;
    var start := |pre| + |tag|;
    assert s[|pre|..start] == tag;
    assert s[start..start + MacLength] == mac;
    assert s[|pre|] == tag[0];
    assert s[start + MacLength - 1] == mac[|mac| - 1];
    forall k | start <= k < start + MacLength ensures IsMacChar(s[k]) {
      assert s[k] == mac[k - start];
    }
    if |post| > 0 {
      assert s[start + MacLength] == post[0];
    }
    if |pre| > 0 {
      assert s[|pre| - 1] == pre[|pre| - 1];
    }
  }

  /** A tagged address standing as its own word after text without a colon is
      the one the search finds. */
  lemma MacOfToken(pre: string, tag: string, mac: string, post: string)
    requires tag == TransmitterTag || tag == SourceTag
    requires |mac| == MacLength && (forall k :: 0 <= k < |mac| ==> IsMacChar(mac[k])) && IsHexDigit(mac[|mac| - 1])
    requires forall k :: 0 <= k < |pre| ==> pre[k] != ':'
    requires |pre| == 0 || !IsWordChar(pre[|pre| - 1])
    requires |post| == 0 || !IsWordChar(post[0])
    ensures FindMac(pre + tag + mac + post, tag) == Some(mac)
  {
    var s := pre + tag + mac + post;
    MacAtToken(pre, tag, mac, post);
    forall p | 0 <= p < |pre| ensures MacAt(s, tag, p).None? {
      if p + 2 < |pre| {
        assert s[p + 2] == pre[p + 2];
      } else {
        assert s[p + 2] == tag[p + 2 - |pre|];
      }
      assert s[p..p + |tag|][2] == s[p + 2];
    }
    assert FirstMacAt(s, tag, 0) == Some(|pre|);
  }

  /** A line without the tag's first letter has no address under that tag. */
  lemma NoMacWithoutTag(s: string, tag: string)
    requires |tag| > 0
    requires forall k :: 0 <= k < |s| ==> s[k] != tag[0]
    ensures FindMac(s, tag).None?
  {
    forall p | 0 <= p <= |s| ensures MacAt(s, tag, p).None? {
      if p + |tag| <= |s| {
        assert s[p..p + |tag|][0] == s[p];
      }
    }
  }

  // ---------------------------------------------------------------------------
  // The reading

  /** What one line yields: the lower-cased MAC, the signal in dBm, and the
      capture time in seconds. */
  datatype Reading = Reading(mac: string, rssi: int, ts: real)

  /** `parse_line`, before the result is keyed: all three matches must
      succeed. */
  function ReadLine(line: string): (r: Option<Reading>)
    ensures r.None? <==> TimestampText(line).None? || Rssi(line).None? || MacText(line).None?
    ensures r.Some? ==> (r.value.mac == Lower(MacText(line).value)
      && r.value.rssi == Rssi(line).value
      && r.value.ts == TimestampValue(TimestampText(line).value))
    ensures r.Some? ==> |r.value.mac| == MacLength && -999 <= r.value.rssi <= 999
  {
    var ts := TimestampText(line);
    var rssi := Rssi(line);
    var mac := MacText(line);
    if ts.None? || rssi.None? || mac.None? then None
    else
      assert rssi.value == RssiAt(line, FirstRssiAt(line, 0).value).value;
      Some(Reading(Lower(mac.value), rssi.value, TimestampValue(ts.value)))
  }

  /** The MAC of a reading is lower case: lowering it again changes nothing. */
  lemma ReadLineMacIsLower(line: string)
    ensures ReadLine(line).Some? ==> Lower(ReadLine(line).value.mac) == ReadLine(line).value.mac
  {
    if ReadLine(line).Some? {
      LowerIsIdempotent(MacText(line).value);
    }
  }

  /** Of a line naming both a transmitter and a source address, the reading
      carries the transmitter's. */
  lemma TransmitterFirst(line: string)
    ensures ReadLine(line).Some? && FindMac(line, TransmitterTag).Some? ==>
      ReadLine(line).value.mac == Lower(FindMac(line, TransmitterTag).value)
  {
  }

  /** The parsed record as a JSON object, the capture time under `tsKey`. */
  function Keyed(r: Reading, tsKey: string): (j: Json)
    ensures j.JObj? && j.fields.Keys == {"mac", "rssi", tsKey}
  {
    JObj(map["mac" := JStr(r.mac), "rssi" := JNum(r.rssi as real), tsKey := JNum(r.ts)])
  }

  // ---------------------------------------------------------------------------
  // Reading back a line built from its parts

  /** A capture line assembled from its parts: the timestamp, the text up to the
      signal token, the token, the text up to the tagged address, the address
      and the rest of the line. */
  function CaptureLine(ts: string, pre: string, rssi: int, mid: string, tag: string, mac: string, post: string): string
  {
    ts + pre + SignedDecimal(rssi) + Signal + mid + tag + mac + post
  }

  predicate IsMacText(mac: string)
  {
    |mac| == MacLength && (forall k :: 0 <= k < |mac| ==> IsMacChar(mac[k])) && IsHexDigit(mac[|mac| - 1])
  }

  lemma TimestampLacks(t: string, c: char)
    requires IsTimestampText(t)
    requires !IsDigit(c) && c != '.'
    ensures Lacks(t, c)
  {
    TimestampPoint(t);
    var a := DigitRun(t, 0);
    forall k | a < k < |t| ensures IsDigit(t[k]) {
      assert t[k] == t[a + 1..][k - a - 1];
    }
  }

  lemma SignedDecimalLacks(v: int, c: char)
    requires !IsDigit(c) && c != '-'
    ensures Lacks(SignedDecimal(v), c)
  {
    if v < 0 {
      LacksAppend("-", Decimal(-v), c);
    }
  }

  lemma MacTextLacks(mac: string, c: char)
    requires IsMacText(mac)
    requires !IsMacChar(c)
    ensures Lacks(mac, c)
  {
  }

  /** A line built from a timestamp, a signal token and a tagged address, with
      separating text that cannot be mistaken for any of them, reads back as
      exactly those three values. The text before the signal holds no `d` and
      ends in a separator; no text before the address holds a colon; a line
      carrying a source address holds no `T`, so that it has no transmitter. */
  lemma ReadCaptureLine(ts: string, pre: string, rssi: int, mid: string, tag: string, mac: string, post: string)
    requires IsTimestampText(ts)
    requires -999 <= rssi <= 999
    requires |pre| > 0 && !IsDigit(pre[0]) && !IsWordChar(pre[|pre| - 1]) && pre[|pre| - 1] != '-'
    requires Lacks(pre, Signal[0]) && Lacks(pre, ':')
    requires |mid| > 0 && !IsWordChar(mid[|mid| - 1]) && Lacks(mid, ':')
    requires tag == TransmitterTag || tag == SourceTag
    requires IsMacText(mac)
    requires |post| == 0 || !IsWordChar(post[0])
    requires tag == SourceTag ==> Lacks(pre, 'T') && Lacks(mid, 'T') && Lacks(post, 'T')
    ensures ReadLine(CaptureLine(ts, pre, rssi, mid, tag, mac, post))
      == Some(Reading(Lower(mac), rssi, TimestampValue(ts)))
  {
    CaptureTimestamp(ts, pre, rssi, mid, tag, mac, post);
    CaptureRssi(ts, pre, rssi, mid, tag, mac, post);
    CaptureMac(ts, pre, rssi, mid, tag, mac, post);
    if tag == SourceTag {
      CaptureHasNoTransmitter(ts, pre, rssi, mid, mac, post);
    }
  }

  lemma CaptureTimestamp(ts: string, pre: string, rssi: int, mid: string, tag: string, mac: string, post: string)
    requires IsTimestampText(ts)
    requires |pre| > 0 && !IsDigit(pre[0])
    ensures TimestampText(CaptureLine(ts, pre, rssi, mid, tag, mac, post)) == Some(ts)
  {
    var rest := pre + SignedDecimal(rssi) + Signal + mid + tag + mac + post;
    CaptureLineAfterTimestamp(ts, pre, rssi, mid, tag, mac, post);
    assert rest[0] == pre[0];
    TimestampTextOf(ts, rest);
  }

  lemma CaptureRssi(ts: string, pre: string, rssi: int, mid: string, tag: string, mac: string, post: string)
    requires IsTimestampText(ts)
    requires -999 <= rssi <= 999
    requires |pre| > 0 && !IsDigit(pre[|pre| - 1]) && pre[|pre| - 1] != '-'
    requires Lacks(pre, Signal[0])
    ensures Rssi(CaptureLine(ts, pre, rssi, mid, tag, mac, post)) == Some(rssi)
  {
    var before := ts + pre;
    var after := mid + tag + mac + post;
    var token := before + SignedDecimal(rssi) + Signal;
    Assoc(token, mid, tag);
    Assoc(token, mid + tag, mac);
    Assoc(token, mid + tag + mac, post);
    TimestampLacks(ts, Signal[0]);
    LacksAppend(ts, pre, Signal[0]);
    assert before[|before| - 1] == pre[|pre| - 1];
    RssiOfToken(before, rssi, after);
  }

  /** A capture line is its timestamp followed by the rest of the line. */
  lemma CaptureLineAfterTimestamp(ts: string, pre: string, rssi: int, mid: string, tag: string, mac: string, post: string)
    ensures CaptureLine(ts, pre, rssi, mid, tag, mac, post)
      == ts + (pre + SignedDecimal(rssi) + Signal + mid + tag + mac + post)
  {
    var sd := SignedDecimal(rssi);
    Assoc(ts, pre, sd);
    Assoc(ts, pre + sd, Signal);
    Assoc(ts, pre + sd + Signal, mid);
    Assoc(ts, pre + sd + Signal + mid, tag);
    Assoc(ts, pre + sd + Signal + mid + tag, mac);
    Assoc(ts, pre + sd + Signal + mid + tag + mac, post);
  }

  /** Everything before the tag. */
  function CaptureLead(ts: string, pre: string, rssi: int, mid: string): string
  {
    ts + pre + SignedDecimal(rssi) + Signal + mid
  }

  lemma CaptureLeadLacks(ts: string, pre: string, rssi: int, mid: string, c: char)
    requires IsTimestampText(ts)
    requires !IsDigit(c) && c != '.' && c != '-' && c !in Signal
    requires Lacks(pre, c) && Lacks(mid, c)
    ensures Lacks(CaptureLead(ts, pre, rssi, mid), c)
  {
    assert Lacks(Signal, c) by {
      forall k | 0 <= k < |Signal| ensures Signal[k] != c {
        assert Signal[k] in Signal;
      }
    }
    var sd := SignedDecimal(rssi);
    TimestampLacks(ts, c);
    SignedDecimalLacks(rssi, c);
    LacksAppend(ts, pre, c);
    LacksAppend(ts + pre, sd, c);
    LacksAppend(ts + pre + sd, Signal, c);
    LacksAppend(ts + pre + sd + Signal, mid, c);
  }

  lemma CaptureMac(ts: string, pre: string, rssi: int, mid: string, tag: string, mac: string, post: string)
    requires IsTimestampText(ts)
    requires Lacks(pre, ':')
    requires |mid| > 0 && !IsWordChar(mid[|mid| - 1]) && Lacks(mid, ':')
    requires tag == TransmitterTag || tag == SourceTag
    requires IsMacText(mac)
    requires |post| == 0 || !IsWordChar(post[0])
    ensures FindMac(CaptureLine(ts, pre, rssi, mid, tag, mac, post), tag) == Some(mac)
  {
    var lead := CaptureLead(ts, pre, rssi, mid);
    assert CaptureLine(ts, pre, rssi, mid, tag, mac, post) == lead + tag + mac + post;
    assert Signal[2] == 'm';
    CaptureLeadLacks(ts, pre, rssi, mid, ':');
    assert lead[|lead| - 1] == mid[|mid| - 1];
    MacOfToken(lead, tag, mac, post);
  }

  lemma CaptureHasNoTransmitter(ts: string, pre: string, rssi: int, mid: string, mac: string, post: string)
    requires IsTimestampText(ts)
    requires IsMacText(mac)
    requires Lacks(pre, 'T') && Lacks(mid, 'T') && Lacks(post, 'T')
    ensures FindMac(CaptureLine(ts, pre, rssi, mid, SourceTag, mac, post), TransmitterTag).None?
  {
    var lead := CaptureLead(ts, pre, rssi, mid);
    var line := CaptureLine(ts, pre, rssi, mid, SourceTag, mac, post);
    assert line == lead + SourceTag + mac + post;
    CaptureLeadLacks(ts, pre, rssi, mid, 'T');
    MacTextLacks(mac, 'T');
    LacksAppend(lead, SourceTag, 'T');
    LacksAppend(lead + SourceTag, mac, 'T');
    LacksAppend(lead + SourceTag + mac, post, 'T');
    NoMacWithoutTag(line, TransmitterTag);
  }
}
