/** The endpoint's per-MAC window aggregator (`MacAggregator`): samples of one
    MAC collect in an open window until the window has lasted `window_s`
    seconds, by capture time or by the caller's clock, and then leave as one
    summary record. Emitted records are returned rather than passed to a
    callback. */
module Aggregator {
  import opened Wrappers
  import opened Statistics

  /** One packet's reading: capture time in seconds, signal strength, channel. */
  datatype Sample = Sample(ts: real, rssi: real, channel: int)

  /** A MAC's open window: its samples in arrival order and the capture times
      of its first and last sample. */
  datatype Window = Window(samples: seq<Sample>, firstTs: real, lastTs: real)

  /** The aggregator: the window length in seconds, the open windows, and the
      MACs in the order their windows were opened (the order in which Python
      iterates the state dictionary). */
  datatype MacAggregator = MacAggregator(windowS: real, windows: map<string, Window>, order: seq<string>)

  /** The emitted summary. `rssiVariance` is the square of the record's
      `rssi_stddev`. */
  datatype Record = Record(
    mac: string,
    firstSeen: real,
    lastSeen: real,
    sampleCount: nat,
    medianRssi: real,
    avgRssi: real,
    rssiVariance: real,
    lastChannel: int,
    windowMs: int,
    aggregated: bool)

  /** The aggregator after an operation, and the records the operation emitted,
      in emission order. */
  datatype Step = Step(state: MacAggregator, emitted: seq<Record>)

  predicate Distinct(ks: seq<string>)
  {
    forall i, j :: 0 <= i < j < |ks| ==> ks[i] != ks[j]
  }

  /** A window has samples, and its first and last times are theirs. */
  predicate WellFormed(w: Window)
  {
    |w.samples| > 0 && w.firstTs == w.samples[0].ts && w.lastTs == w.samples[|w.samples| - 1].ts
  }

  /** What every reachable aggregator satisfies: each open MAC is listed once
      in the order, and every open window is well formed. */
  ghost predicate Valid(st: MacAggregator)
  {
    && Distinct(st.order)
    && (forall k :: k in st.windows <==> k in st.order)
    && (forall k :: k in st.windows ==> WellFormed(st.windows[k]))
  }

  /** `MacAggregator(window_s, ...)`: no window is open. */
  function New(windowS: real): (st: MacAggregator)
    ensures Valid(st) && st.windowS == windowS
    ensures forall k :: k !in st.windows
  {
    MacAggregator(windowS, map[], [])
  }

  // ---------------------------------------------------------------------------
  // The summary

  /** Python `int(x)` on a float: truncation toward zero. */
  function Trunc(x: real): (n: int)
    ensures x >= 0.0 ==> n as real <= x < n as real + 1.0
    ensures x < 0.0 ==> n as real - 1.0 < x <= n as real
  {
    if x >= 0.0 then x.Floor else -((-x).Floor)
  }

  function RssisOf(samples: seq<Sample>): (rs: seq<real>)
    ensures |rs| == |samples|
    ensures forall i :: 0 <= i < |samples| ==> rs[i] == samples[i].rssi
  {
    seq(|samples|, i requires 0 <= i < |samples| => samples[i].rssi)
  }

  /** `_emit`'s record for a window with samples: its first and last times,
      the sample count, median, mean and (for more than one sample) population
      variance of the signal strengths, the last sample's channel and the
      window length in whole milliseconds. */
  function Summarize(mac: string, w: Window, windowS: real): (rec: Record)
    requires |w.samples| > 0
    ensures rec.mac == mac && rec.aggregated
    ensures rec.firstSeen == w.firstTs && rec.lastSeen == w.lastTs
    ensures rec.sampleCount == |w.samples|
    ensures rec.lastChannel == w.samples[|w.samples| - 1].channel
    ensures rec.windowMs == Trunc(windowS * 1000.0)
  {
    var rs := RssisOf(w.samples);
    Record(mac, w.firstTs, w.lastTs, |w.samples|, Median(rs), Mean(rs),
      if |rs| > 1 then Variance(rs) else 0.0,
      w.samples[|w.samples| - 1].channel, Trunc(windowS * 1000.0), true)
  }

  /** The summary stays within the window's range of signal strengths, and its
      spread is never negative. */
  lemma SummarizeWithin(mac: string, w: Window, windowS: real, lo: real, hi: real)
    requires |w.samples| > 0
    requires forall i :: 0 <= i < |w.samples| ==> lo <= w.samples[i].rssi <= hi
    ensures var rec := Summarize(mac, w, windowS);
      && lo <= rec.medianRssi <= hi
      && lo <= rec.avgRssi <= hi
      && rec.rssiVariance >= 0.0
  {
    SummariesWithin(RssisOf(w.samples), lo, hi);
  }

  /** A window of one sample summarises to that sample exactly. */
  lemma SummarizeSingle(mac: string, s: Sample, windowS: real)
    ensures var rec := Summarize(mac, Window([s], s.ts, s.ts), windowS);
      && rec.sampleCount == 1
      && rec.medianRssi == s.rssi && rec.avgRssi == s.rssi && rec.rssiVariance == 0.0
      && rec.firstSeen == s.ts && rec.lastSeen == s.ts && rec.lastChannel == s.channel
  {
    assert RssisOf([s]) == [s.rssi];
    SingleSample(s.rssi);
  }

  // ---------------------------------------------------------------------------
  // The order of open MACs

  /** The MACs of `ks` not in `gone`, in order. */
  function Drop(ks: seq<string>, gone: set<string>): (r: seq<string>)
    ensures |r| <= |ks|
    ensures forall k :: k in r <==> k in ks && k !in gone
    ensures Distinct(ks) ==> Distinct(r)
  {
    if |ks| == 0 then []
    else
      var rest := Drop(ks[1..], gone);
      assert Distinct(ks) ==> ks[0] !in ks[1..];
      (if ks[0] in gone then [] else [ks[0]]) + rest
  }

  lemma {:induction false} DropNothing(ks: seq<string>, gone: set<string>)
    requires forall k :: k in ks ==> k !in gone
    ensures Drop(ks, gone) == ks
  {
    if |ks| > 0 {
      DropNothing(ks[1..], gone);
      assert ks == [ks[0]] + ks[1..];
    }
  }

  lemma {:induction false} DropEverything(ks: seq<string>, gone: set<string>)
    requires forall k :: k in ks ==> k in gone
    ensures Drop(ks, gone) == []
  {
    if |ks| > 0 {
      assert ks[0] in ks;
      DropEverything(ks[1..], gone);
    }
  }

  /** Dropping in two rounds drops the union. */
  lemma {:induction false} DropDrop(ks: seq<string>, a: set<string>, b: set<string>)
    ensures Drop(Drop(ks, a), b) == Drop(ks, a + b)
  {
    if |ks| > 0 {
      DropDrop(ks[1..], a, b);
      var rest := Drop(ks[1..], a);
      var head := if ks[0] in a + b then [] else [ks[0]];
      assert Drop(ks, a + b) == head + Drop(ks[1..], a + b);
      if ks[0] in a {
        assert Drop(ks, a) == [] + rest == rest;
        assert Drop(ks, a + b) == [] + Drop(ks[1..], a + b) == Drop(ks[1..], a + b);
      } else {
        var d := [ks[0]] + rest;
        assert Drop(ks, a) == d;
        assert d[1..] == rest;
        assert Drop(d, b) == head + Drop(rest, b);
      }
    }
  }

  function Elems(ks: seq<string>): set<string>
  {
    set k | k in ks
  }

  lemma ElemsCons(ks: seq<string>)
    requires |ks| > 0
    ensures Elems(ks) == {ks[0]} + Elems(ks[1..])
  {
    assert forall k :: k in ks <==> k == ks[0] || k in ks[1..];
  }

  // ---------------------------------------------------------------------------
  // add_sample and _emit

  function Lookup(st: MacAggregator, mac: string): Option<Window>
  {
    if mac in st.windows then Some(st.windows[mac]) else None
  }

  /** Appends a sample to a MAC's window, opening one at the sample's time
      when the MAC has none. */
  function Extend(existing: Option<Window>, s: Sample): (w: Window)
    ensures existing.None? ==> w.samples == [s] && w.firstTs == s.ts
    ensures existing.Some? ==> w.samples == existing.value.samples + [s] && w.firstTs == existing.value.firstTs
    ensures w.lastTs == s.ts
    ensures existing.None? || WellFormed(existing.value) ==> WellFormed(w)
  {
    match existing
    case None => Window([s], s.ts, s.ts)
    case Some(open) => Window(open.samples + [s], open.firstTs, s.ts)
  }

  /** `_emit(mac)`: a MAC without a window emits nothing and changes nothing;
      otherwise its window is closed and its record emitted. */
  function Emit(st: MacAggregator, mac: string): (r: Step)
    ensures mac !in st.windows ==> r == Step(st, [])
    ensures r.state.windowS == st.windowS
    ensures mac !in r.state.windows
    ensures forall k :: k != mac ==> (k in r.state.windows <==> k in st.windows)
    ensures forall k :: k != mac && k in st.windows ==> r.state.windows[k] == st.windows[k]
    ensures mac in st.windows ==> r.state.order == Drop(st.order, {mac})
    ensures Valid(st) ==> Valid(r.state)
    ensures Valid(st) && mac in st.windows ==> r.emitted == [Summarize(mac, st.windows[mac], st.windowS)]
    ensures |r.emitted| <= 1
  {
    if mac !in st.windows then Step(st, [])
    else
      var w := st.windows[mac];
      var rest := MacAggregator(st.windowS, st.windows - {mac}, Drop(st.order, {mac}));
      if |w.samples| == 0 then Step(rest, [])
      else Step(rest, [Summarize(mac, w, st.windowS)])
  }

  /** `add_sample(mac, rssi, ts, channel)`: the sample joins the MAC's window
      (opened now if there is none, at the end of the order), and the window
      is emitted at once when this sample lies `window_s` or more after its
      first one. */
  function AddSample(st: MacAggregator, mac: string, rssi: real, ts: real, channel: int): (r: Step)
    ensures r.state.windowS == st.windowS
    ensures var first := if mac in st.windows then st.windows[mac].firstTs else ts;
      |r.emitted| > 0 <==> ts - first >= st.windowS
    ensures var w := Extend(Lookup(st, mac), Sample(ts, rssi, channel));
      && (|r.emitted| > 0 ==> r.emitted == [Summarize(mac, w, st.windowS)] && mac !in r.state.windows)
      && (|r.emitted| == 0 ==> mac in r.state.windows && r.state.windows[mac] == w)
    ensures forall k :: k != mac ==> (k in r.state.windows <==> k in st.windows)
    ensures forall k :: k != mac && k in st.windows ==> r.state.windows[k] == st.windows[k]
    ensures |r.emitted| == 0 && mac !in st.windows ==> r.state.order == st.order + [mac]
    ensures |r.emitted| == 0 && mac in st.windows ==> r.state.order == st.order
    ensures |r.emitted| <= 1
    ensures Valid(st) ==> Valid(r.state)
  {
    var w := Extend(Lookup(st, mac), Sample(ts, rssi, channel));
    var order := if mac in st.windows then st.order else st.order + [mac];
    var grown := MacAggregator(st.windowS, st.windows[mac := w], order);
    assert Valid(st) ==> Valid(grown) by {
      if Valid(st) && mac !in st.windows {
        assert mac !in st.order;
      }
    }
    if ts - w.firstTs >= st.windowS then Emit(grown, mac) else Step(grown, [])
  }

  // ---------------------------------------------------------------------------
  // Emitting several windows: flush_expired and flush_all

  /** `_emit` for each MAC of `macs` in turn. */
  function EmitAll(st: MacAggregator, macs: seq<string>): (r: Step)
    ensures r.state.windowS == st.windowS
    ensures Valid(st) ==> Valid(r.state)
    ensures |r.emitted| <= |macs|
    ensures forall k :: k in r.state.windows <==> k in st.windows && k !in macs
    ensures forall k :: k in r.state.windows ==> r.state.windows[k] == st.windows[k]
    decreases |macs|
  {
    if |macs| == 0 then Step(st, [])
    else
      var first := Emit(st, macs[0]);
      var rest := EmitAll(first.state, macs[1..]);
      assert forall k :: k in macs <==> k == macs[0] || k in macs[1..];
      Step(rest.state, first.emitted + rest.emitted)
  }

  /** Emitting the first of distinct open MACs leaves the rest open and
      distinct. */
  lemma EmitFirstOpen(st: MacAggregator, macs: seq<string>)
    requires Valid(st) && Distinct(macs) && |macs| > 0
    requires forall m :: m in macs ==> m in st.windows
    ensures var next := Emit(st, macs[0]).state;
      && Valid(next) && Distinct(macs[1..]) && macs[0] !in macs[1..]
      && (forall m :: m in macs[1..] ==> m in next.windows && next.windows[m] == st.windows[m])
  {
    var tail := macs[1..];
    forall i, j | 0 <= i < j < |tail| ensures tail[i] != tail[j] {
      assert tail[i] == macs[i + 1] && tail[j] == macs[j + 1];
    }
    forall m | m in tail ensures m != macs[0] && m in st.windows {
      var i :| 0 <= i < |tail| && tail[i] == m;
      assert macs[i + 1] == m && m in macs;
    }
  }

  /** Emitting distinct open MACs drops exactly them from the order. */
  lemma {:induction false} EmitAllOrder(st: MacAggregator, macs: seq<string>)
    requires Valid(st) && Distinct(macs)
    requires forall m :: m in macs ==> m in st.windows
    ensures EmitAll(st, macs).state.order == Drop(st.order, Elems(macs))
    decreases |macs|
  {
    if |macs| == 0 {
      DropNothing(st.order, Elems(macs));
    } else {
      EmitFirstOpen(st, macs);
      EmitAllOrder(Emit(st, macs[0]).state, macs[1..]);
      DropDrop(st.order, {macs[0]}, Elems(macs[1..]));
      ElemsCons(macs);
    }
  }

  /** Emitting distinct open MACs emits their records in the given order. */
  lemma {:induction false} EmitAllRecords(st: MacAggregator, macs: seq<string>)
    requires Valid(st) && Distinct(macs)
    requires forall m :: m in macs ==> m in st.windows
    ensures var r := EmitAll(st, macs);
      && |r.emitted| == |macs|
      && forall i :: 0 <= i < |macs| ==> r.emitted[i] == Summarize(macs[i], st.windows[macs[i]], st.windowS)
    decreases |macs|
  {
    if |macs| > 0 {
      var first := Emit(st, macs[0]);
      EmitFirstOpen(st, macs);
      EmitAllRecords(first.state, macs[1..]);
      var rest := EmitAll(first.state, macs[1..]);
      var head := Summarize(macs[0], st.windows[macs[0]], st.windowS);
      assert first.emitted == [head];
      assert EmitAll(st, macs).emitted == [head] + rest.emitted;
      forall i | 0 <= i < |macs| ensures macs[i] in st.windows && |st.windows[macs[i]].samples| > 0 {
        assert macs[i] in macs;
      }
      ConsRecords(EmitAll(st, macs).emitted, head, rest.emitted, macs, st.windows, first.state.windows, st.windowS);
    }
  }

  /** The records of the first MAC and of the rest, joined, are the records
      of all of them. */
  lemma ConsRecords(all: seq<Record>, head: Record, rest: seq<Record>, macs: seq<string>,
                    windows: map<string, Window>, next: map<string, Window>, windowS: real)
    requires |macs| > 0 && |rest| == |macs| - 1 && all == [head] + rest
    requires forall i :: 0 <= i < |macs| ==> macs[i] in windows && |windows[macs[i]].samples| > 0
    requires head == Summarize(macs[0], windows[macs[0]], windowS)
    requires forall i :: 0 <= i < |rest| ==>
      var m := macs[1..][i]; m in next && next[m] == windows[m] && rest[i] == Summarize(m, next[m], windowS)
    ensures |all| == |macs|
    ensures forall i :: 0 <= i < |macs| ==> all[i] == Summarize(macs[i], windows[macs[i]], windowS)
  {
    forall i | 0 <= i < |macs| ensures all[i] == Summarize(macs[i], windows[macs[i]], windowS) {
      if i > 0 {
        assert macs[1..][i - 1] == macs[i];
        assert all[i] == rest[i - 1];
      }
    }
  }

  /** The open MACs of `ks` whose windows began `window_s` or more before
      `now`, in order. */
  function Expired(windows: map<string, Window>, ks: seq<string>, now: real, windowS: real): (r: seq<string>)
    ensures forall k :: k in r <==> k in ks && k in windows && now - windows[k].firstTs >= windowS
    ensures Distinct(ks) ==> Distinct(r)
  {
    if |ks| == 0 then []
    else
      var rest := Expired(windows, ks[1..], now, windowS);
      assert Distinct(ks) ==> ks[0] !in ks[1..];
      (if ks[0] in windows && now - windows[ks[0]].firstTs >= windowS then [ks[0]] else []) + rest
  }

  /** `flush_expired(now)`: emits, in order, every window that began `window_s`
      or more before `now`. The wall-clock default is left to the caller. */
  function FlushExpired(st: MacAggregator, now: real): (r: Step)
    ensures r.state.windowS == st.windowS
    ensures Valid(st) ==> Valid(r.state)
    ensures Valid(st) ==> forall k :: k in r.state.windows <==> k in st.windows && now - st.windows[k].firstTs < st.windowS
    ensures forall k :: k in r.state.windows ==> k in st.windows && r.state.windows[k] == st.windows[k]
  {
    EmitAll(st, Expired(st.windows, st.order, now, st.windowS))
  }

  /** `flush_all()`: emits every open window, in the order they were opened. */
  function FlushAll(st: MacAggregator): (r: Step)
    ensures r.state.windowS == st.windowS
    ensures Valid(st) ==> Valid(r.state)
    ensures Valid(st) ==> forall k :: k !in r.state.windows
  {
    EmitAll(st, st.order)
  }

  /** What `flush_expired` emits: one record per expired window, in window
      order, each the summary of that window, and a record for every expired
      window. */
  lemma FlushExpiredEmits(st: MacAggregator, now: real)
    requires Valid(st)
    ensures var r := FlushExpired(st, now);
      && (forall i :: 0 <= i < |r.emitted| ==>
            var m := r.emitted[i].mac;
            m in st.windows && now - st.windows[m].firstTs >= st.windowS
            && r.emitted[i] == Summarize(m, st.windows[m], st.windowS))
      && (forall k :: k in st.windows && now - st.windows[k].firstTs >= st.windowS ==>
            exists i :: 0 <= i < |r.emitted| && r.emitted[i].mac == k)
  {
    var exp := Expired(st.windows, st.order, now, st.windowS);
    EmitAllRecords(st, exp);
    ExpiredRecords(st, now, exp, FlushExpired(st, now).emitted);
  }

  lemma ExpiredRecords(st: MacAggregator, now: real, exp: seq<string>, emitted: seq<Record>)
    requires forall k :: k in exp <==> k in st.order && k in st.windows && now - st.windows[k].firstTs >= st.windowS
    requires forall k :: k in st.windows ==> k in st.order
    requires |emitted| == |exp|
    requires forall i :: 0 <= i < |exp| ==> exp[i] in st.windows && |st.windows[exp[i]].samples| > 0
    requires forall i :: 0 <= i < |exp| ==> emitted[i] == Summarize(exp[i], st.windows[exp[i]], st.windowS)
    ensures forall i :: 0 <= i < |emitted| ==>
      var m := emitted[i].mac;
      m in st.windows && now - st.windows[m].firstTs >= st.windowS
      && emitted[i] == Summarize(m, st.windows[m], st.windowS)
    ensures forall k :: k in st.windows && now - st.windows[k].firstTs >= st.windowS ==>
      exists i :: 0 <= i < |emitted| && emitted[i].mac == k
  {
    forall i | 0 <= i < |emitted|
      ensures var m := emitted[i].mac;
        m in st.windows && now - st.windows[m].firstTs >= st.windowS
        && emitted[i] == Summarize(m, st.windows[m], st.windowS)
    {
      assert exp[i] in exp;
    }
    forall k | k in st.windows && now - st.windows[k].firstTs >= st.windowS
      ensures exists i :: 0 <= i < |emitted| && emitted[i].mac == k
    {
      assert k in exp;
      var i :| 0 <= i < |exp| && exp[i] == k;
      assert emitted[i].mac == k;
    }
  }

  /** What `flush_all` emits: the summary of every open window, in the order
      the windows were opened, leaving the aggregator empty. */
  lemma FlushAllEmits(st: MacAggregator)
    requires Valid(st)
    ensures var r := FlushAll(st);
      && |r.emitted| == |st.order|
      && (forall i :: 0 <= i < |st.order| ==>
            r.emitted[i] == Summarize(st.order[i], st.windows[st.order[i]], st.windowS))
      && r.state.order == []
  {
    EmitAllOrder(st, st.order);
    EmitAllRecords(st, st.order);
    DropEverything(st.order, Elems(st.order));
  }

  /** A second `flush_all` has nothing left to emit. */
  lemma FlushAllTwice(st: MacAggregator)
    requires Valid(st)
    ensures FlushAll(FlushAll(st).state).emitted == []
  {
    FlushAllEmits(st);
  }

  /** Flushing at the same time twice emits nothing the second time. */
  lemma FlushExpiredTwice(st: MacAggregator, now: real)
    requires Valid(st)
    ensures FlushExpired(FlushExpired(st, now).state, now).emitted == []
  {
  }

  // ---------------------------------------------------------------------------
  // No sample is lost or counted twice

  /** The number of samples held by `windows` under the MACs of `ks`. */
  function Size(windows: map<string, Window>, k: string): nat
  {
    if k in windows then |windows[k].samples| else 0
  }

  function SamplesIn(windows: map<string, Window>, ks: seq<string>): nat
  {
    if |ks| == 0 then 0 else Size(windows, ks[0]) + SamplesIn(windows, ks[1..])
  }

  /** All samples held by the aggregator. */
  function Held(st: MacAggregator): nat
  {
    SamplesIn(st.windows, st.order)
  }

  /** All samples summarised by a list of records. */
  function CountOf(recs: seq<Record>): nat
  {
    if |recs| == 0 then 0 else recs[0].sampleCount + CountOf(recs[1..])
  }

  lemma {:induction false} CountOfAppend(a: seq<Record>, b: seq<Record>)
    ensures CountOf(a + b) == CountOf(a) + CountOf(b)
  {
    if |a| == 0 {
      assert a + b == b;
    } else {
      CountOfAppend(a[1..], b);
      assert (a + b)[1..] == a[1..] + b;
      assert (a + b)[0] == a[0];
    }
  }

  lemma {:induction false} SamplesInAgree(w1: map<string, Window>, w2: map<string, Window>, ks: seq<string>)
    requires forall k :: k in ks ==> Size(w1, k) == Size(w2, k)
    ensures SamplesIn(w1, ks) == SamplesIn(w2, ks)
  {
    if |ks| > 0 {
      assert ks[0] in ks;
      SamplesInAgree(w1, w2, ks[1..]);
    }
  }

  lemma {:induction false} SamplesInAppend(w: map<string, Window>, ks: seq<string>, k: string)
    ensures SamplesIn(w, ks + [k]) == SamplesIn(w, ks) + Size(w, k)
  {
    if |ks| == 0 {
      assert SamplesIn(w, [k]) == Size(w, k) + SamplesIn(w, []);
    } else {
      SamplesInAppend(w, ks[1..], k);
      assert (ks + [k])[1..] == ks[1..] + [k];
    }
  }

  /** A MAC listed once contributes its own samples and nothing else. */
  lemma {:induction false} SamplesInSplit(w: map<string, Window>, ks: seq<string>, mac: string)
    requires Distinct(ks) && mac in ks
    ensures SamplesIn(w, ks) == Size(w, mac) + SamplesIn(w, Drop(ks, {mac}))
  {
    if ks[0] == mac {
      assert mac !in ks[1..];
      DropNothing(ks[1..], {mac});
      assert Drop(ks, {mac}) == [] + Drop(ks[1..], {mac}) == ks[1..];
      assert SamplesIn(w, ks) == Size(w, mac) + SamplesIn(w, ks[1..]);
    } else {
      SamplesInSplit(w, ks[1..], mac);
      assert Drop(ks, {mac}) == [ks[0]] + Drop(ks[1..], {mac});
      assert ([ks[0]] + Drop(ks[1..], {mac}))[1..] == Drop(ks[1..], {mac});
    }
  }

  /** `_emit` moves a window's samples from the aggregator into its record. */
  lemma EmitConserves(st: MacAggregator, mac: string)
    requires Valid(st)
    ensures var r := Emit(st, mac);
      Held(r.state) + CountOf(r.emitted) == Held(st)
  {
    if mac in st.windows {
      var r := Emit(st, mac);
      var dropped := Drop(st.order, {mac});
      SamplesInSplit(st.windows, st.order, mac);
      SamplesInAgree(r.state.windows, st.windows, dropped);
      assert CountOf(r.emitted) == r.emitted[0].sampleCount + CountOf([]);
    }
  }

  lemma {:induction false} EmitAllConserves(st: MacAggregator, macs: seq<string>)
    requires Valid(st)
    ensures var r := EmitAll(st, macs);
      Held(r.state) + CountOf(r.emitted) == Held(st)
    decreases |macs|
  {
    if |macs| > 0 {
      var first := Emit(st, macs[0]);
      EmitConserves(st, macs[0]);
      EmitAllConserves(first.state, macs[1..]);
      CountOfAppend(first.emitted, EmitAll(first.state, macs[1..]).emitted);
    }
  }

  /** `add_sample` adds exactly one sample: to the aggregator, or to the record
      it emits. */
  lemma AddSampleConserves(st: MacAggregator, mac: string, rssi: real, ts: real, channel: int)
    requires Valid(st)
    ensures var r := AddSample(st, mac, rssi, ts, channel);
      Held(r.state) + CountOf(r.emitted) == Held(st) + 1
  {
    var w := Extend(Lookup(st, mac), Sample(ts, rssi, channel));
    var order := if mac in st.windows then st.order else st.order + [mac];
    var grown := MacAggregator(st.windowS, st.windows[mac := w], order);
    GrownConserves(st, mac, Sample(ts, rssi, channel), grown);
    AddSampleGrows(st, mac, rssi, ts, channel, grown);
    if ts - w.firstTs >= st.windowS {
      EmitConserves(grown, mac);
    } else {
      assert CountOf([]) == 0;
    }
  }

  /** A sample joins its window, which is then emitted when it is due. */
  lemma AddSampleGrows(st: MacAggregator, mac: string, rssi: real, ts: real, channel: int, grown: MacAggregator)
    requires grown == MacAggregator(st.windowS, st.windows[mac := Extend(Lookup(st, mac), Sample(ts, rssi, channel))],
      if mac in st.windows then st.order else st.order + [mac])
    ensures var due := ts - Extend(Lookup(st, mac), Sample(ts, rssi, channel)).firstTs >= st.windowS;
      AddSample(st, mac, rssi, ts, channel) == if due then Emit(grown, mac) else Step(grown, [])
  {
  }

  /** Joining a window adds one held sample and keeps the aggregator valid. */
  lemma GrownConserves(st: MacAggregator, mac: string, s: Sample, grown: MacAggregator)
    requires Valid(st)
    requires grown == MacAggregator(st.windowS, st.windows[mac := Extend(Lookup(st, mac), s)],
      if mac in st.windows then st.order else st.order + [mac])
    ensures Valid(grown) && Held(grown) == Held(st) + 1
  {
    if mac in st.windows {
      SamplesInSplit(st.windows, st.order, mac);
      SamplesInSplit(grown.windows, st.order, mac);
      SamplesInAgree(grown.windows, st.windows, Drop(st.order, {mac}));
    } else {
      assert mac !in st.order;
      SamplesInAppend(grown.windows, st.order, mac);
      SamplesInAgree(grown.windows, st.windows, st.order);
    }
    assert Valid(grown) by {
      assert mac !in st.windows ==> mac !in st.order;
    }
  }

  /** `flush_all` hands every held sample to its records. */
  lemma FlushAllConserves(st: MacAggregator)
    requires Valid(st)
    ensures CountOf(FlushAll(st).emitted) == Held(st)
  {
    EmitAllConserves(st, st.order);
    FlushAllEmits(st);
  }

  /** `flush_expired` moves samples from the aggregator into its records
      without loss. */
  lemma FlushExpiredConserves(st: MacAggregator, now: real)
    requires Valid(st)
    ensures var r := FlushExpired(st, now);
      Held(r.state) + CountOf(r.emitted) == Held(st)
  {
    EmitAllConserves(st, Expired(st.windows, st.order, now, st.windowS));
  }

  /** A valid aggregator without windows has an empty order. */
  lemma NothingOpen(st: MacAggregator)
    requires Valid(st)
    requires forall k :: k !in st.windows
    ensures st.order == []
  {
    OnlyOpenListed(st.order, st.windows);
  }

  lemma OnlyOpenListed(ks: seq<string>, windows: map<string, Window>)
    requires forall k :: k in ks ==> k in windows
    ensures (forall k :: k !in windows) ==> ks == []
  {
    if |ks| > 0 {
      assert ks[0] in ks;
    }
  }

  // ---------------------------------------------------------------------------
  // The aggregator's test cases, as lemmas

  const MacA := "aa:bb:cc:dd:ee:ff"
  const MacB := "11:22:33:44:55:66"
  const MacC := "aa:aa:aa:aa:aa:aa"

  /** Two samples one second apart in a two-second window emit nothing. */
  lemma NoEmitBeforeWindowExpires()
    ensures var s1 := AddSample(New(2.0), MacA, -50.0, 100.0, 6);
      var s2 := AddSample(s1.state, MacA, -55.0, 101.0, 6);
      s1.emitted == [] && s2.emitted == []
  {
  }

  /** A sample 2.5 s after the first in a two-second window emits the window at
      once: median and mean -55, standard deviation 5 (variance 25), the last
      channel, 2000 ms; a later `flush_all` emits nothing. */
  lemma EmitOnAddSampleWhenWindowExpires()
    ensures var s1 := AddSample(New(2.0), MacA, -50.0, 10.0, 1);
      var s2 := AddSample(s1.state, MacA, -60.0, 12.5, 11);
      && |s2.emitted| == 1
      && s2.emitted[0] == Record(MacA, 10.0, 12.5, 2, -55.0, -55.0, 25.0, 11, 2000, true)
      && FlushAll(s2.state).emitted == []
  {
    var s1 := AddSample(New(2.0), MacA, -50.0, 10.0, 1);
    var s2 := AddSample(s1.state, MacA, -60.0, 12.5, 11);
    var w := Window([Sample(10.0, -50.0, 1), Sample(12.5, -60.0, 11)], 10.0, 12.5);
    ExpiringPair(s1, s2, w);
    PairRecord(w);
    NothingOpen(s2.state);
  }

  /** The second sample of the pair closes the window the first opened. */
  lemma ExpiringPair(s1: Step, s2: Step, w: Window)
    requires s1 == AddSample(New(2.0), MacA, -50.0, 10.0, 1)
    requires s2 == AddSample(s1.state, MacA, -60.0, 12.5, 11)
    requires w == Window([Sample(10.0, -50.0, 1), Sample(12.5, -60.0, 11)], 10.0, 12.5)
    ensures s2.emitted == [Summarize(MacA, w, 2.0)] && Valid(s2.state) && MacA !in s2.state.windows
  {
    var a := Sample(10.0, -50.0, 1);
    assert s1.state.windows[MacA] == Window([a], 10.0, 10.0);
    assert [a] + [Sample(12.5, -60.0, 11)] == w.samples;
  }

  /** The pair's summary: median and mean -55, variance 25, 2000 ms. */
  lemma PairRecord(w: Window)
    requires w == Window([Sample(10.0, -50.0, 1), Sample(12.5, -60.0, 11)], 10.0, 12.5)
    ensures Summarize(MacA, w, 2.0) == Record(MacA, 10.0, 12.5, 2, -55.0, -55.0, 25.0, 11, 2000, true)
  {
    var rs := RssisOf(w.samples);
    assert rs == [-50.0, -60.0];
    PairSummary(rs);
    assert Trunc(2.0 * 1000.0) == 2000;
  }

  lemma PairSummary(rs: seq<real>)
    requires rs == [-50.0, -60.0]
    ensures Median(rs) == -55.0 && Mean(rs) == -55.0 && Variance(rs) == 25.0
  {
    TwoSamples(-50.0, -60.0);
  }

  /** A one-sample window is not flushed one second in, and is flushed 2.5 s
      in as that sample alone. */
  lemma FlushExpiredUsesCurrentTime()
    ensures var s1 := AddSample(New(2.0), MacB, -70.0, 20.0, 6);
      var s2 := FlushExpired(s1.state, 21.0);
      var s3 := FlushExpired(s2.state, 22.5);
      && s2.emitted == []
      && |s3.emitted| == 1
      && s3.emitted[0].mac == MacB && s3.emitted[0].sampleCount == 1
      && s3.emitted[0].medianRssi == -70.0 && s3.emitted[0].avgRssi == -70.0
      && s3.emitted[0].rssiVariance == 0.0
      && s3.emitted[0].firstSeen == 20.0 && s3.emitted[0].lastSeen == 20.0
  {
    var a := Sample(20.0, -70.0, 6);
    var s1 := AddSample(New(2.0), MacB, -70.0, 20.0, 6);
    var st := s1.state;
    assert st.windows[MacB] == Window([a], 20.0, 20.0) && st.order == [MacB];
    assert Expired(st.windows, st.order, 21.0, 2.0) == [] + Expired(st.windows, [], 21.0, 2.0) == [];
    assert FlushExpired(st, 21.0) == Step(st, []);
    assert Expired(st.windows, st.order, 22.5, 2.0) == [MacB] + Expired(st.windows, [], 22.5, 2.0) == [MacB];
    EmitAllRecords(st, [MacB]);
    SummarizeSingle(MacB, a, 2.0);
  }

  /** `flush_all` emits a window that has not yet expired. */
  lemma FlushAllEmitsRemaining()
    ensures var s1 := AddSample(New(10.0), MacC, -40.0, 100.0, 1);
      var s2 := AddSample(s1.state, MacC, -42.0, 101.0, 1);
      var s3 := FlushExpired(s2.state, 105.0);
      var s4 := FlushAll(s3.state);
      && s3.emitted == []
      && |s4.emitted| == 1
      && s4.emitted[0].mac == MacC && s4.emitted[0].sampleCount == 2
  {
    var s1 := AddSample(New(10.0), MacC, -40.0, 100.0, 1);
    var st := AddSample(s1.state, MacC, -42.0, 101.0, 1).state;
    OneMacOpen(st);
    OneMacFlush(st);
  }

  /** The state of the one-MAC case: one window of two samples from 100 s. */
  lemma OneMacOpen(st: MacAggregator)
    requires st == AddSample(AddSample(New(10.0), MacC, -40.0, 100.0, 1).state, MacC, -42.0, 101.0, 1).state
    ensures Valid(st) && st.windowS == 10.0 && st.order == [MacC]
    ensures |st.windows[MacC].samples| == 2
    ensures FlushExpired(st, 105.0) == Step(st, [])
  {
    assert st.windows[MacC].firstTs == 100.0;
    assert Expired(st.windows, st.order, 105.0, 10.0) == [] + Expired(st.windows, [], 105.0, 10.0) == [];
  }

  lemma OneMacFlush(st: MacAggregator)
    requires Valid(st) && st.order == [MacC] && |st.windows[MacC].samples| == 2
    ensures var r := FlushAll(st);
      |r.emitted| == 1 && r.emitted[0].mac == MacC && r.emitted[0].sampleCount == 2
  {
    FlushAllEmits(st);
  }

  /** Two MACs keep separate windows: both expire and each emits its own
      record, in the order the MACs were first seen. */
  lemma MultipleMacsTrackedIndependently()
    ensures var s1 := AddSample(New(1.0), MacA, -60.0, 10.0, 1);
      var s2 := AddSample(s1.state, MacB, -70.0, 10.2, 6);
      var s3 := FlushExpired(s2.state, 12.0);
      && |s3.emitted| == 2
      && s3.emitted[0].mac == MacA && s3.emitted[1].mac == MacB
  {
    var s1 := AddSample(New(1.0), MacA, -60.0, 10.0, 1);
    var st := AddSample(s1.state, MacB, -70.0, 10.2, 6).state;
    TwoMacsOpen(st);
    TwoMacsFlush(st);
  }

  lemma TwoMacsFlush(st: MacAggregator)
    requires Valid(st) && st.order == [MacA, MacB]
    requires Expired(st.windows, st.order, 12.0, st.windowS) == [MacA, MacB]
    ensures var r := FlushExpired(st, 12.0);
      |r.emitted| == 2 && r.emitted[0].mac == MacA && r.emitted[1].mac == MacB
  {
    EmitAllRecords(st, [MacA, MacB]);
  }

  /** The state of the two-MAC case before the flush. */
  lemma TwoMacsOpen(st: MacAggregator)
    requires st == AddSample(AddSample(New(1.0), MacA, -60.0, 10.0, 1).state, MacB, -70.0, 10.2, 6).state
    ensures Valid(st) && st.windowS == 1.0 && st.order == [MacA, MacB]
    ensures Expired(st.windows, st.order, 12.0, 1.0) == [MacA, MacB]
  {
    assert st.windows[MacA].firstTs == 10.0 && st.windows[MacB].firstTs == 10.2;
    assert [MacA, MacB][1..] == [MacB];
    assert Expired(st.windows, [MacB], 12.0, 1.0) == [MacB] + Expired(st.windows, [], 12.0, 1.0);
  }
}
