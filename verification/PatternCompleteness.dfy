/** Pulse trains through the pattern detector: a train of any radar type makes some type report in time. */
module PatternCompleteness {
  import opened Options
  import opened MachineWords
  import opened DfsModel
  import opened DfsTrains
  import opened DfsCompleteness
  import opened DfsTables
  import opened PatternModel
  import opened PatternHistory
  import opened PatternSoundness

  /** The verdict on the last of a series of pulses. */
  ghost function Feed(kmalloc: Kmalloc, pd: Pattern, p: Pools, es: seq<PulseEvent>): (v: Verdict)
    requires Shaped(pd)
    ensures Shaped(v.pattern)
  {
    if es == [] then Verdict(pd, p, false, None)
    else
      var v := Feed(kmalloc, pd, p, es[..|es| - 1]);
      PatternAddPulse(kmalloc, v.pattern, v.pools, es[|es| - 1])
  }

  /** No pulse of the series on this frequency is answered with a report. */
  ghost predicate Unreported(kmalloc: Kmalloc, pd: Pattern, p: Pools, es: seq<PulseEvent>, freq: nat)
    requires Shaped(pd)
  {
    es != [] ==>
      && Unreported(kmalloc, pd, p, es[..|es| - 1], freq)
      && (es[|es| - 1].freq == freq ==> !Feed(kmalloc, pd, p, es).radar)
  }

  /** The pulses on one frequency. */
  function On(es: seq<PulseEvent>, freq: nat): (r: seq<PulseEvent>)
    ensures |r| <= |es|
  {
    if es == [] then []
    else On(es[..|es| - 1], freq) + if es[|es| - 1].freq == freq then [es[|es| - 1]] else []
  }

  lemma {:induction false} InitSucceeds(kmalloc: Kmalloc, p: Pools, n: nat)
    requires AllSucceed(kmalloc)
    ensures InitDetectors(kmalloc, p, n).0 == n
    decreases n
  {
    if n > 0 {
      InitSucceeds(kmalloc, Register(Kmalloc1(kmalloc, p).1), n - 1);
    }
  }

  /** With enough memory every pulse finds its channel. */
  lemma ChannelFound(kmalloc: Kmalloc, pd: Pattern, p: Pools, freq: nat)
    requires AllSucceed(kmalloc)
    ensures GetChannel(kmalloc, pd, p, freq).0.Some?
  {
    InitSucceeds(kmalloc, Kmalloc1(kmalloc, Kmalloc1(kmalloc, p).1).1, |pd.specs|);
  }

  /** If no detector fires, every one of them has seen the pulse, and has reported nothing. */
  lemma {:induction false} SilentSawPulse(kmalloc: Kmalloc, specs: seq<RadarSpec>, dets: seq<Detector>, p: Pools,
                                          e: PulseEvent, i: nat, k: nat) returns (seen: Pools)
    requires ValidSpecs(specs) && |dets| == |specs| && i <= k < |specs|
    ensures var (dets', _, fired) := Match(kmalloc, specs, dets, p, e, i);
            var o := AddPulse(specs[k], kmalloc, dets[k], seen, e);
            fired == None ==> dets'[k] == o.det && o.radar == None
    decreases |specs| - i
  {
    seen := p;
    var o := AddPulse(specs[i], kmalloc, dets[i], p, e);
    if o.radar == None {
      if i == k {
        MatchRest(kmalloc, specs, dets[i := o.det], o.pools, e, i + 1);
      } else {
        seen := SilentSawPulse(kmalloc, specs, dets[i := o.det], o.pools, e, i + 1, k);
      }
    }
    hide AddPulse, ValidSpecs;
  }

  /** The state of detector k on the channel for `freq`. */
  ghost predicate Has(pd: Pattern, freq: nat, k: nat, d: Detector) {
    var c := FindChannel(pd.channels, freq);
    c < |pd.channels| && k < |pd.channels[c].dets| && pd.channels[c].dets[k] == d
  }

  lemma FoundAgain(pd: Pattern, c: nat)
    requires Shaped(pd) && c < |pd.channels|
    ensures FindChannel(pd.channels, pd.channels[c].freq) == c
  {
  }

  /** How many detectors can be created: all of them exactly if no allocation fails. */
  lemma {:induction false} InitExactly(kmalloc: Kmalloc, p: Pools, n: nat)
    ensures InitDetectors(kmalloc, p, n).0 == n <==> forall j :: p.calls <= j < p.calls + n ==> kmalloc(j)
    decreases n
  {
    if n > 0 && kmalloc(p.calls) {
      InitExactly(kmalloc, Register(Kmalloc1(kmalloc, p).1), n - 1);
    }
  }

  /** A pulse on a new channel is lost, with no answer and no trace, exactly if one of the allocations for the channel,
      its list of detectors or one of the detectors fails. */
  lemma LostExactly(kmalloc: Kmalloc, pd: Pattern, p: Pools, e: PulseEvent)
    requires Shaped(pd) && pd.region != Unset && pd.lastTs != e.ts
    requires forall c :: 0 <= c < |pd.channels| ==> pd.channels[c].freq != e.freq
    ensures var v := PatternAddPulse(kmalloc, pd, p, e);
            if forall j :: p.calls <= j < p.calls + 2 + |pd.specs| ==> kmalloc(j) then v.pattern.lastTs == e.ts
            else v.pattern == pd && !v.radar && v.found == None
  {
    CreatedExactly(kmalloc, pd, p, e.freq);
    GetChannelKeepsShape(kmalloc, pd, p, e.freq);
    var (_, pd1, p1) := GetChannel(kmalloc, pd, p, e.freq);
    RewindKeepsShape(pd1, p1, e.ts);
    hide GetChannel, Match, Shaped;
  }

  lemma CreatedExactly(kmalloc: Kmalloc, pd: Pattern, p: Pools, freq: nat)
    requires forall c :: 0 <= c < |pd.channels| ==> pd.channels[c].freq != freq
    ensures var (at, pd', _) := GetChannel(kmalloc, pd, p, freq);
            && (at.Some? <==> forall j :: p.calls <= j < p.calls + 2 + |pd.specs| ==> kmalloc(j))
            && (at.None? ==> pd' == pd)
  {
    InitExactly(kmalloc, Kmalloc1(kmalloc, Kmalloc1(kmalloc, p).1).1, |pd.specs|);
    hide InitDetectors;
  }

  /** A pulse that is not answered has been seen by every detector of its channel. */
  lemma SilentStep(kmalloc: Kmalloc, pd: Pattern, p: Pools, e: PulseEvent, k: nat) returns (seen: Pools)
    requires AllSucceed(kmalloc) && Shaped(pd) && pd.region != Unset && k < |pd.specs|
    requires !PatternAddPulse(kmalloc, pd, p, e).radar
    ensures pd.specs[k].ppb >= 1 && k < |Listeners(kmalloc, pd, p, e)|
    ensures var o := AddPulse(pd.specs[k], kmalloc, Listeners(kmalloc, pd, p, e)[k], seen, e);
            var pd' := PatternAddPulse(kmalloc, pd, p, e).pattern;
            && o.radar == None && Has(pd', e.freq, k, o.det)
            && pd'.region == pd.region && pd'.specs == pd.specs && pd'.lastTs == e.ts
  {
    ChannelFound(kmalloc, pd, p, e.freq);
    GetChannelKeepsShape(kmalloc, pd, p, e.freq);
    var (at, pd1, p1) := GetChannel(kmalloc, pd, p, e.freq);
    RewindKeepsShape(pd1, p1, e.ts);
    var (pd2, p2) := Rewind(pd1, p1, e.ts);
    assert pd2.specs == pd.specs && pd2.region == pd.region;
    assert Listeners(kmalloc, pd, p, e) == pd2.channels[at.value].dets;
    hide GetChannel, Rewind, Match, AddPulse, Listeners, AllSucceed, FindChannel;
    seen := SilentSawPulse(kmalloc, pd2.specs, pd2.channels[at.value].dets, p2, e, 0, k);
    FoundAgain(PatternAddPulse(kmalloc, pd, p, e).pattern, at.value);
  }

  /** While time goes on, a channel that exists listens as it is. */
  lemma ListensAsItIs(kmalloc: Kmalloc, pd: Pattern, p: Pools, e: PulseEvent, k: nat, d: Detector)
    requires Shaped(pd) && Has(pd, e.freq, k, d) && pd.lastTs <= e.ts
    ensures k < |Listeners(kmalloc, pd, p, e)| && Listeners(kmalloc, pd, p, e)[k] == d
  {
  }

  /** Pulse n of a train, with enough memory. */
  lemma TrainStep(rs: RadarSpec, kmalloc: Kmalloc, d: Detector, p: Pools, e: PulseEvent,
                  start: u64, period: nat, n: nat)
    requires ValidSpec(rs) && AllSucceed(kmalloc) && FitsSpec(rs, period) && n < ReportAt(rs)
    requires if n == 0 then Ready(rs, d, start) else UnderWay(rs, d, start, period, n, true)
    requires e.ts == TrainTime(start, period, n) && IsTrain(rs, [e], e.ts, period)
    ensures Reports(rs, AddPulse(rs, kmalloc, d, p, e), start, period, n + 1, true)
  {
    StepSucceeds(rs, kmalloc, d, p, e);
    TrainStart(start, period);
    hide AddPulse, AllSucceed, FitsSpec, Ready, UnderWay, IsTrain, TrainTime, TrainSequence, Roomy, Reports;
    if n == 0 {
      TrainBegins(rs, kmalloc, d, p, e, period);
    } else if !Roomy(rs, start, period) {
      LateLater(rs, kmalloc, d, p, e, start, period, n, true);
    } else if n == 1 {
      RoomySecond(rs, kmalloc, d, p, e, start, period, true);
    } else {
      RoomyLater(rs, kmalloc, d, p, e, start, period, n, true);
    }
  }

  /** Pulses in the order of time, the first of them on this frequency, on which they form a train. */
  ghost predicate TrainOn(rs: RadarSpec, es: seq<PulseEvent>, freq: nat, start: u64, period: nat) {
    && IsTrain(rs, On(es, freq), start, period)
    && es != [] && es[0].freq == freq && forall i, j :: 0 <= i < j < |es| ==> es[i].ts <= es[j].ts
  }

  /** After n pulses of an unreported train its detector has counted them all. */
  ghost predicate OnTheWay(pd: Pattern, pd': Pattern, freq: nat, k: nat, d: Detector, start: u64, period: nat, n: nat)
    requires k < |pd.specs| && pd.specs[k].ppb >= 1
  {
    && pd'.region == pd.region && pd'.specs == pd.specs && Has(pd', freq, k, d)
    && UnderWay(pd.specs[k], d, start, period, n, true)
  }

  lemma OnAppend(es: seq<PulseEvent>, e: PulseEvent, freq: nat)
    ensures On(es + [e], freq) == if e.freq == freq then On(es, freq) + [e] else On(es, freq)
  {
    assert (es + [e])[..|es + [e]| - 1] == es;
  }

  /** A longer series goes on with a pulse of the train or with one elsewhere. */
  lemma TrainGoesOn(rs: RadarSpec, es: seq<PulseEvent>, freq: nat, start: u64, period: nat)
    requires TrainOn(rs, es, freq, start, period)
    ensures var front, e := es[..|es| - 1], es[|es| - 1];
            var n := |On(front, freq)|;
            && (front != [] ==> TrainOn(rs, front, freq, start, period) && front[0] == es[0])
            && (front != [] ==> front[|front| - 1].ts <= e.ts)
            && (front == [] ==> e.freq == freq && n == 0)
            && if e.freq == freq then
                 |On(es, freq)| == n + 1 && e.ts == TrainTime(start, period, n) && IsTrain(rs, [e], e.ts, period)
               else On(es, freq) == On(front, freq)
  {
    var front, e := es[..|es| - 1], es[|es| - 1];
    assert front + [e] == es;
    OnAppend(front, e, freq);
    hide TrainTime;
    if e.freq == freq {
      var all := On(es, freq);
      assert all[..|all| - 1] == On(front, freq);
      TrainPart(rs, all, start, period, |all| - 1);
    }
  }

  /** A pulse on another frequency that is not back in time leaves this one's detectors alone. */
  lemma OtherStep(kmalloc: Kmalloc, pd: Pattern, p: Pools, e: PulseEvent, freq: nat, k: nat, d: Detector)
    requires AllSucceed(kmalloc) && Shaped(pd) && pd.region != Unset && e.freq != freq && pd.lastTs <= e.ts
    requires Has(pd, freq, k, d)
    ensures var pd' := PatternAddPulse(kmalloc, pd, p, e).pattern;
            Has(pd', freq, k, d) && pd'.region == pd.region && pd'.specs == pd.specs && pd'.lastTs == e.ts
  {
    ChannelFound(kmalloc, pd, p, e.freq);
    GetChannelKeepsShape(kmalloc, pd, p, e.freq);
    var (at, pd1, p1) := GetChannel(kmalloc, pd, p, e.freq);
    OthersListed(kmalloc, pd, p, e.freq, freq);
    RewindKeepsShape(pd1, p1, e.ts);
    var (pd2, p2) := Rewind(pd1, p1, e.ts);
    assert pd2 == pd1.(lastTs := e.ts);
    var ch := pd2.channels[at.value];
    var (dets, _, _) := Match(kmalloc, pd2.specs, ch.dets, p2, e, 0);
    hide GetChannel, Rewind, Match, AllSucceed, FindChannel;
    OthersFound(pd2.channels, at.value, ch.(dets := dets), freq);
  }

  /** A new channel does not hide the others. */
  lemma OthersListed(kmalloc: Kmalloc, pd: Pattern, p: Pools, other: nat, freq: nat)
    requires other != freq && FindChannel(pd.channels, freq) < |pd.channels|
    ensures var pd' := GetChannel(kmalloc, pd, p, other).1;
            var c, c' := FindChannel(pd.channels, freq), FindChannel(pd'.channels, freq);
            c' < |pd'.channels| && pd'.channels[c'] == pd.channels[c]
            && pd'.region == pd.region && pd'.lastTs == pd.lastTs
  {
    hide CreateChannel;
    var (ch, p') := CreateChannel(kmalloc, p, pd.specs, other);
    if FindChannel(pd.channels, other) == |pd.channels| && ch.Some? {
      CreatedFor(kmalloc, p, pd.specs, other);
      assert ([ch.value] + pd.channels)[1..] == pd.channels;
    }
  }

  lemma CreatedFor(kmalloc: Kmalloc, p: Pools, specs: seq<RadarSpec>, freq: nat)
    ensures var ch := CreateChannel(kmalloc, p, specs, freq).0; ch.Some? ==> ch.value.freq == freq
  {
  }

  lemma OthersFound(channels: seq<Channel>, at: nat, ch: Channel, freq: nat)
    requires at < |channels| && ch.freq == channels[at].freq != freq && FindChannel(channels, freq) < |channels|
    ensures var after, c := channels[at := ch], FindChannel(channels, freq);
            FindChannel(after, freq) == c && after[c] == channels[c]
  {
    var after := channels[at := ch];
    forall j | 0 <= j < |channels| ensures after[j].freq == channels[j].freq {
    }
    hide FindChannel;
    assert after[FindChannel(channels, freq)].freq == freq;
    var c := FindChannel(after, freq);
    assert c < |after| ==> channels[c].freq == freq;
  }

  lemma {:induction false} FedTime(kmalloc: Kmalloc, pd: Pattern, p: Pools, es: seq<PulseEvent>)
    requires AllSucceed(kmalloc) && Shaped(pd) && pd.region != Unset && es != []
    ensures var v := Feed(kmalloc, pd, p, es).pattern; v.lastTs == es[|es| - 1].ts && v.region == pd.region
  {
    var front, e := es[..|es| - 1], es[|es| - 1];
    if front != [] {
      FedTime(kmalloc, pd, p, front);
    }
    var v := Feed(kmalloc, pd, p, front);
    ChannelFound(kmalloc, v.pattern, v.pools, e.freq);
    ChannelOrNot(kmalloc, v.pattern, v.pools, e.freq);
    hide GetChannel, Match, AllSucceed, Shaped, Feed;
  }

  lemma ChannelOrNot(kmalloc: Kmalloc, pd: Pattern, p: Pools, freq: nat)
    ensures GetChannel(kmalloc, pd, p, freq).1.region == pd.region
  {
  }

  /** A train that is not reported is on its way, and has not had pulse max(2, ppbThresh). */
  lemma {:induction false} UnreportedIsOnTheWay(kmalloc: Kmalloc, pd: Pattern, p: Pools, es: seq<PulseEvent>, freq: nat,
                                                k: nat, start: u64, period: nat) returns (d: Detector)
    requires AllSucceed(kmalloc) && Shaped(pd) && pd.region != Unset && k < |pd.specs|
    requires ValidSpec(pd.specs[k]) && FitsSpec(pd.specs[k], period) && |On(es, freq)| <= ReportAt(pd.specs[k])
    requires TrainOn(pd.specs[k], es, freq, start, period)
    requires k < |Listeners(kmalloc, pd, p, es[0])| && Ready(pd.specs[k], Listeners(kmalloc, pd, p, es[0])[k], start)
    requires Unreported(kmalloc, pd, p, es, freq)
    ensures |On(es, freq)| < ReportAt(pd.specs[k])
    ensures OnTheWay(pd, Feed(kmalloc, pd, p, es).pattern, freq, k, d, start, period, |On(es, freq)|)
    decreases |es|
  {
    var front, e, rs := es[..|es| - 1], es[|es| - 1], pd.specs[k];
    var n := |On(front, freq)|;
    TrainGoesOn(rs, es, freq, start, period);
    TrainStart(start, period);
    hide AllSucceed, FitsSpec, ValidSpec, TrainOn, IsTrain, Ready, Listeners, Shaped, TrainTime, UnderWay, AddPulse,
         PatternAddPulse, Has, ReportAt, On;
    var v := Feed(kmalloc, pd, p, front);
    assert Feed(kmalloc, pd, p, es) == PatternAddPulse(kmalloc, v.pattern, v.pools, e);
    hide Feed;
    if front != [] {
      FedTime(kmalloc, pd, p, front);
      d := UnreportedIsOnTheWay(kmalloc, pd, p, front, freq, k, start, period);
      if e.freq != freq {
        OtherStep(kmalloc, v.pattern, v.pools, e, freq, k, d);
        return;
      }
      ListensAsItIs(kmalloc, v.pattern, v.pools, e, k, d);
    } else {
      d := Listeners(kmalloc, pd, p, e)[k];
    }
    var seen := SilentStep(kmalloc, v.pattern, v.pools, e, k);
    assert n > 0 <==> front != [] by { TrainHasBegun(es, freq); }
    TrainStep(rs, kmalloc, d, seen, e, start, period, n);
    d := AddPulse(rs, kmalloc, d, seen, e).det;
  }

  lemma {:induction false} TrainHasBegun(es: seq<PulseEvent>, freq: nat)
    requires es != [] && es[0].freq == freq
    ensures |On(es, freq)| > 0 && (|On(es[..|es| - 1], freq)| > 0 <==> |es| > 1)
  {
    if |es| > 1 {
      TrainHasBegun(es[..|es| - 1], freq);
    }
  }

  /** Completeness of the pattern detector: a train of any radar type, on a channel whose detector for it is fresh, is
      answered with a report of some type by pulse max(2, ppbThresh) of it, whatever pulses on other channels come in
      between. */
  lemma TrainIsAnswered(kmalloc: Kmalloc, pd: Pattern, p: Pools, es: seq<PulseEvent>, freq: nat, k: nat,
                        start: u64, period: nat)
    requires AllSucceed(kmalloc) && Shaped(pd) && pd.region != Unset && k < |pd.specs|
    requires FitsSpec(pd.specs[k], period) && |On(es, freq)| == ReportAt(pd.specs[k])
    requires TrainOn(pd.specs[k], es, freq, start, period)
    requires k < |Listeners(kmalloc, pd, p, es[0])| && Ready(pd.specs[k], Listeners(kmalloc, pd, p, es[0])[k], start)
    ensures exists n :: 1 <= n <= |es| && es[n - 1].freq == freq && Feed(kmalloc, pd, p, es[..n]).radar
  {
    assert ValidSpec(pd.specs[k]);
    if Unreported(kmalloc, pd, p, es, freq) {
      var d := UnreportedIsOnTheWay(kmalloc, pd, p, es, freq, k, start, period);
      assert false;
    } else {
      hide FitsSpec, ValidSpec, TrainOn, Ready, Listeners, Shaped, Feed;
      ReportedSomewhere(kmalloc, pd, p, es, freq);
    }
  }

  /** On a channel that did not exist before, every detector is fresh. */
  lemma NewChannelIsFresh(kmalloc: Kmalloc, pd: Pattern, p: Pools, e: PulseEvent, k: nat)
    requires AllSucceed(kmalloc) && Shaped(pd) && k < |pd.specs|
    requires FindChannel(pd.channels, e.freq) == |pd.channels| && pd.lastTs <= e.ts
    ensures k < |Listeners(kmalloc, pd, p, e)|
    ensures Ready(pd.specs[k], Listeners(kmalloc, pd, p, e)[k], e.ts) <==> e.ts >= PRI_TOLERANCE
  {
    ChannelFound(kmalloc, pd, p, e.freq);
    hide AllSucceed, InitDetectors;
    assert ValidSpec(pd.specs[k]);
  }

  /** After a time stamp wraparound every detector of every channel is fresh: it accepts the pulse that brings the
      wraparound exactly if this is a tolerance past the last time stamp, modulo 2^64. */
  lemma WrapIsFresh(kmalloc: Kmalloc, pd: Pattern, p: Pools, e: PulseEvent, k: nat)
    requires Shaped(pd) && k < |pd.specs| && e.ts < pd.lastTs
    requires FindChannel(pd.channels, e.freq) < |pd.channels| || AllSucceed(kmalloc)
    ensures k < |Listeners(kmalloc, pd, p, e)|
    ensures Ready(pd.specs[k], Listeners(kmalloc, pd, p, e)[k], e.ts) <==>
            (e.ts - pd.lastTs) % 0x1_0000_0000_0000_0000 >= PRI_TOLERANCE
  {
    if FindChannel(pd.channels, e.freq) == |pd.channels| {
      ChannelFound(kmalloc, pd, p, e.freq);
    }
    GetChannelKeepsShape(kmalloc, pd, p, e.freq);
    var (at, pd1, p1) := GetChannel(kmalloc, pd, p, e.freq);
    assert pd1.lastTs == pd.lastTs && at.Some?;
    RewindRestarts(pd1, p1, e.ts, at.value, k);
    hide GetChannel, Rewind, AllSucceed;
    assert ValidSpec(pd.specs[k]);
  }

  lemma {:induction false} ReportedSomewhere(kmalloc: Kmalloc, pd: Pattern, p: Pools, es: seq<PulseEvent>, freq: nat)
    requires Shaped(pd) && !Unreported(kmalloc, pd, p, es, freq)
    ensures exists n :: 1 <= n <= |es| && es[n - 1].freq == freq && Feed(kmalloc, pd, p, es[..n]).radar
  {
    hide Feed, Shaped;
    var front := es[..|es| - 1];
    if !Unreported(kmalloc, pd, p, front, freq) {
      ReportedSomewhere(kmalloc, pd, p, front, freq);
      var n :| 1 <= n <= |front| && front[n - 1].freq == freq && Feed(kmalloc, pd, p, front[..n]).radar;
      assert es[..n] == front[..n] && es[n - 1] == front[n - 1];
    } else {
      assert es[..|es|] == es;
    }
  }
}
