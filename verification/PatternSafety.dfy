/** What every stream of pulses and domain changes keeps, over all channels and radar types. */
module PatternSafety {
  import opened Options
  import opened MachineWords
  import opened DfsModel
  import opened DfsSoundness
  import opened DfsTables
  import opened PatternModel

  /** No listed sequence meets the detection test. */
  ghost predicate Quiet(rs: RadarSpec, d: Detector) {
    forall s | s in d.seqs :: !IsRadar(rs, s)
  }

  ghost predicate DetectorOk(rs: RadarSpec, d: Detector, now: u64) {
    && QueueInv(rs, d)
    && (d.accepted != [] ==> d.lastTs <= now)
    && Quiet(rs, d)
  }

  ghost predicate DetectorsOk(specs: seq<RadarSpec>, dets: seq<Detector>, now: u64) {
    && |dets| == |specs|
    && forall i :: 0 <= i < |dets| ==> DetectorOk(specs[i], dets[i], now)
  }

  ghost predicate ChannelsOk(specs: seq<RadarSpec>, channels: seq<Channel>, now: u64) {
    forall c :: 0 <= c < |channels| ==> DetectorsOk(specs, channels[c].dets, now)
  }

  /** The whole-run invariant: channels are distinct, every queue is sound, and nothing is left undetected. */
  ghost predicate PatternInv(pd: Pattern) {
    && Shaped(pd)
    && ChannelsOk(pd.specs, pd.channels, pd.lastTs)
  }

  lemma NewDetectorOk(rs: RadarSpec, now: u64)
    requires ValidSpec(rs)
    ensures DetectorOk(rs, NEW_DETECTOR, now)
  {
    NewDetectorInv(rs);
  }

  lemma ResetOk(rs: RadarSpec, d: Detector, p: Pools, ts: u64, now: u64)
    requires ValidSpec(rs)
    ensures DetectorOk(rs, Reset(d, p, ts).0, now)
  {
    ResetInv(rs, d, p, ts);
  }

  /** A pulse that reports nothing leaves nothing to report. */
  lemma SilenceIsQuiet(rs: RadarSpec, kmalloc: Kmalloc, d: Detector, p: Pools, e: PulseEvent)
    requires rs.ppb >= 1 && Quiet(rs, d) && AddPulse(rs, kmalloc, d, p, e).radar == None
    ensures Quiet(rs, AddPulse(rs, kmalloc, d, p, e).det)
  {
    hide Candidates, Extend, MaxContinued, TakeMany, Accepts, IsRadar, Enqueued;
  }

  lemma AddPulseOk(rs: RadarSpec, kmalloc: Kmalloc, d: Detector, p: Pools, e: PulseEvent)
    requires ValidSpec(rs) && DetectorOk(rs, d, e.ts)
    ensures var o := AddPulse(rs, kmalloc, d, p, e); o.radar == None ==> DetectorOk(rs, o.det, e.ts)
  {
    AddPulseKeepsQueue(rs, kmalloc, d, p, e);
    hide QueueInv;
    if AddPulse(rs, kmalloc, d, p, e).radar == None {
      SilenceIsQuiet(rs, kmalloc, d, p, e);
    }
    AddPulseTime(rs, kmalloc, d, p, e);
  }

  lemma AddPulseTime(rs: RadarSpec, kmalloc: Kmalloc, d: Detector, p: Pools, e: PulseEvent)
    requires rs.ppb >= 1
    ensures var d' := AddPulse(rs, kmalloc, d, p, e).det; d' == d || d'.lastTs == e.ts
  {
    hide Candidates, Extend, MaxContinued, TakeMany, Accepts, IsRadar, Enqueued;
  }

  lemma UpdateOk(specs: seq<RadarSpec>, dets: seq<Detector>, i: nat, d: Detector, now: u64)
    requires DetectorsOk(specs, dets, now) && i < |specs| && DetectorOk(specs[i], d, now)
    ensures DetectorsOk(specs, dets[i := d], now)
  {
    hide DetectorOk;
  }

  /** Which detectors a match leaves alone, and in which state it leaves the one that fired. */
  ghost predicate MatchFrame(dets: seq<Detector>, dets': seq<Detector>, fired: Option<nat>, i: nat, ts: u64) {
    && |dets'| == |dets|
    && (forall j :: 0 <= j < |dets| && (j < i || (fired.Some? && j > fired.value)) ==> dets'[j] == dets[j])
    && (fired.Some? ==> i <= fired.value < |dets| && dets'[fired.value] == Detector(ts, [], [], [], []))
  }

  /** Matching one pulse on one channel: the detector that fires ends up empty, those after it are not touched,
      and all are sound and quiet. */
  lemma {:induction false} MatchOk(kmalloc: Kmalloc, specs: seq<RadarSpec>, dets: seq<Detector>, p: Pools,
                                   e: PulseEvent, i: nat)
    requires ValidSpecs(specs) && DetectorsOk(specs, dets, e.ts) && i <= |specs|
    ensures var (dets', _, fired) := Match(kmalloc, specs, dets, p, e, i);
            DetectorsOk(specs, dets', e.ts) && MatchFrame(dets, dets', fired, i, e.ts)
    decreases |specs| - i
  {
    if i < |specs| {
      var o := AddPulse(specs[i], kmalloc, dets[i], p, e);
      assert ValidSpec(specs[i]) && DetectorOk(specs[i], dets[i], e.ts);
      hide DetectorOk, ValidSpec, AddPulse, DetectorsOk;
      AddPulseOk(specs[i], kmalloc, dets[i], p, e);
      if o.radar == None {
        UpdateOk(specs, dets, i, o.det, e.ts);
        MatchOk(kmalloc, specs, dets[i := o.det], o.pools, e, i + 1);
      } else {
        ResetOk(specs[i], o.det, o.pools, e.ts, e.ts);
        UpdateOk(specs, dets, i, Reset(o.det, o.pools, e.ts).0, e.ts);
      }
    }
  }

  lemma {:induction false} ResetDetectorsOk(specs: seq<RadarSpec>, dets: seq<Detector>, p: Pools, ts: u64, now: u64)
    requires ValidSpecs(specs) && |dets| == |specs|
    ensures DetectorsOk(specs, ResetDetectors(dets, p, ts).0, now)
  {
    if dets != [] {
      var n := |dets| - 1;
      ResetDetectorsOk(specs[..n], dets[..n], p, ts, now);
      var (front, p1) := ResetDetectors(dets[..n], p, ts);
      ResetOk(specs[n], dets[n], p1, ts, now);
    }
  }

  lemma {:induction false} ResetChannelsOk(specs: seq<RadarSpec>, channels: seq<Channel>, p: Pools, ts: u64, now: u64)
    requires ValidSpecs(specs) && forall c :: 0 <= c < |channels| ==> |channels[c].dets| == |specs|
    ensures ChannelsOk(specs, ResetChannels(channels, p, ts).0, now)
  {
    hide DetectorsOk;
    if channels != [] {
      var n := |channels| - 1;
      ResetChannelsOk(specs, channels[..n], p, ts, now);
      var (front, p1) := ResetChannels(channels[..n], p, ts);
      assert ChannelsOk(specs, front, now);
      ResetDetectorsOk(specs, channels[n].dets, p1, ts, now);
    }
  }

  lemma RewindOk(pd: Pattern, p: Pools, ts: u64)
    requires PatternInv(pd)
    ensures PatternInv(Rewind(pd, p, ts).0)
  {
    RewindKeepsShape(pd, p, ts);
    if ts < pd.lastTs {
      hide DetectorsOk;
      ResetChannelsOk(pd.specs, pd.channels, p, pd.lastTs, ts);
    } else {
      hide QueueInv;
      forall c | 0 <= c < |pd.channels|
        ensures DetectorsOk(pd.specs, pd.channels[c].dets, ts)
      {
      }
    }
  }

  lemma GetChannelOk(kmalloc: Kmalloc, pd: Pattern, p: Pools, freq: nat)
    requires PatternInv(pd)
    ensures PatternInv(GetChannel(kmalloc, pd, p, freq).1)
  {
    GetChannelKeepsShape(kmalloc, pd, p, freq);
    forall i | 0 <= i < |pd.specs|
      ensures DetectorOk(pd.specs[i], NEW_DETECTOR, pd.lastTs)
    {
      NewDetectorOk(pd.specs[i], pd.lastTs);
    }
    hide DetectorOk, InitDetectors, ExitDetectors;
    assert DetectorsOk(pd.specs, NewDetectors(|pd.specs|), pd.lastTs);
  }

  /** Every pulse keeps the invariant. Afterwards no live sequence of any detector of any channel meets the
      detection test, and channel frequencies are distinct. */
  lemma PatternAddPulseOk(kmalloc: Kmalloc, pd: Pattern, p: Pools, e: PulseEvent)
    requires PatternInv(pd)
    ensures PatternInv(PatternAddPulse(kmalloc, pd, p, e).pattern)
  {
    if pd.region != Unset {
      GetChannelOk(kmalloc, pd, p, e.freq);
      var (at, pd1, p1) := GetChannel(kmalloc, pd, p, e.freq);
      if at.Some? {
        RewindOk(pd1, p1, e.ts);
        var (pd2, p2) := Rewind(pd1, p1, e.ts);
        MatchOk(kmalloc, pd2.specs, pd2.channels[at.value].dets, p2, e, 0);
        hide DetectorsOk, GetChannel, Rewind, Match;
      }
    }
  }

  /** The detector of the reported radar type on the pulse's channel has been reset to the time of the pulse. */
  ghost predicate FiredIsEmpty(pd: Pattern, e: PulseEvent, found: Option<RadarSpec>) {
    exists c: nat, i: nat :: c < |pd.channels| && i < |pd.channels[c].dets| == |pd.specs| && IsFired(pd, e, found, c, i)
  }

  ghost predicate IsFired(pd: Pattern, e: PulseEvent, found: Option<RadarSpec>, c: nat, i: nat)
    requires c < |pd.channels| && i < |pd.channels[c].dets| == |pd.specs|
  {
    && pd.channels[c].freq == e.freq && found == Some(pd.specs[i])
    && pd.channels[c].dets[i] == Detector(e.ts, [], [], [], [])
  }

  lemma MatchFires(kmalloc: Kmalloc, pd: Pattern, p: Pools, c: nat, e: PulseEvent)
    requires PatternInv(pd) && pd.lastTs == e.ts && c < |pd.channels| && pd.channels[c].freq == e.freq
    ensures var ch := pd.channels[c];
            var (dets, _, fired) := Match(kmalloc, pd.specs, ch.dets, p, e, 0);
            fired.Some? ==>
              FiredIsEmpty(pd.(channels := pd.channels[c := ch.(dets := dets)]), e, Some(pd.specs[fired.value]))
  {
    var ch := pd.channels[c];
    assert DetectorsOk(pd.specs, ch.dets, e.ts);
    MatchOk(kmalloc, pd.specs, ch.dets, p, e, 0);
    hide DetectorsOk, Match, ChannelsOk;
    var (dets, _, fired) := Match(kmalloc, pd.specs, ch.dets, p, e, 0);
    if fired.Some? {
      var pd' := pd.(channels := pd.channels[c := ch.(dets := dets)]);
      assert IsFired(pd', e, Some(pd.specs[fired.value]), c, fired.value);
    }
  }

  /** With a domain set, the detector that reports radar is left empty. */
  lemma ReporterIsEmpty(kmalloc: Kmalloc, pd: Pattern, p: Pools, e: PulseEvent)
    requires PatternInv(pd) && pd.region != Unset && PatternAddPulse(kmalloc, pd, p, e).radar
    ensures var v := PatternAddPulse(kmalloc, pd, p, e); FiredIsEmpty(v.pattern, e, v.found)
  {
    GetChannelOk(kmalloc, pd, p, e.freq);
    var (at, pd1, p1) := GetChannel(kmalloc, pd, p, e.freq);
    if at.Some? {
      RewindKeepsShape(pd1, p1, e.ts);
      RewindOk(pd1, p1, e.ts);
      var (pd2, p2) := Rewind(pd1, p1, e.ts);
      hide DetectorsOk, GetChannel, Rewind, Match, FiredIsEmpty, ChannelsOk;
      MatchFires(kmalloc, pd2, p2, at.value, e);
    }
  }

  lemma SetDomainOk(pd: Pattern, p: Pools, region: Region)
    requires PatternInv(pd)
    ensures PatternInv(SetDomain(pd, p, region).0)
  {
    TablesAreValid(region);
    hide DetectorsOk, ValidSpecs;
  }

  // ---------- runs ----------

  datatype Op = Pulse(event: PulseEvent) | Domain(region: Region)

  /** The state after a stream of pulses and domain changes. */
  ghost function Run(kmalloc: Kmalloc, pd: Pattern, p: Pools, ops: seq<Op>): (r: (Pattern, Pools))
    requires PatternInv(pd)
    ensures PatternInv(r.0)
  {
    if ops == [] then (pd, p)
    else
      var (pd1, p1) := Run(kmalloc, pd, p, ops[..|ops| - 1]);
      match ops[|ops| - 1]
      case Pulse(e) =>
        PatternAddPulseOk(kmalloc, pd1, p1, e);
        var v := PatternAddPulse(kmalloc, pd1, p1, e);
        (v.pattern, v.pools)
      case Domain(region) =>
        SetDomainOk(pd1, p1, region);
        var (pd2, p2, _) := SetDomain(pd1, p1, region);
        (pd2, p2)
  }
}
