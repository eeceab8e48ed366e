/** Detection soundness for whole runs of the pattern detector. */
module PatternSoundness {
  import opened Options
  import opened MachineWords
  import opened DfsModel
  import opened DfsSoundness
  import opened DfsDetection
  import opened DfsTables
  import opened PatternModel
  import opened PatternSafety

  /** The detectors' invariant holds; `strict` asks that no sequence at all is listed without evidence. */
  ghost predicate DetectorsSound(specs: seq<RadarSpec>, dets: seq<Detector>, strict: bool) {
    && ValidSpecs(specs) && |dets| == |specs|
    && forall i :: 0 <= i < |dets| ==> Inv(specs[i], dets[i]) && (strict ==> AllSupported(specs[i], dets[i]))
  }

  /** Every live sequence of every detector of every channel is accounted for by accepted pulses, or has expired and,
      if `strict`, not even that. */
  ghost predicate PatternSound(pd: Pattern, strict: bool) {
    forall c :: 0 <= c < |pd.channels| ==> DetectorsSound(pd.specs, pd.channels[c].dets, strict)
  }

  /** A report at pulse `e` by a detector that was in state `d`: with `e` accepted and its own queue as it was, there
      is a sequence that meets the detection test and is accounted for by the accepted pulses. */
  ghost predicate Justified(rs: RadarSpec, d: Detector, e: PulseEvent)
    requires rs.ppb >= 1
  {
    Accepts(rs, d, e) && exists s :: Supported(rs, Accepting(d, e.ts), s) && IsRadar(rs, s)
  }

  ghost function Accepting(d: Detector, ts: u64): Detector {
    d.(lastTs := ts, accepted := d.accepted + [ts])
  }

  ghost predicate AllRecent(dets: seq<Detector>, ts: u64) {
    forall i :: 0 <= i < |dets| ==> Recent(dets[i], ts)
  }

  /** The channel the pulse is for has no queue older than 2^32 microseconds. */
  ghost predicate RecentOn(pd: Pattern, e: PulseEvent) {
    forall c :: 0 <= c < |pd.channels| && pd.channels[c].freq == e.freq ==> AllRecent(pd.channels[c].dets, e.ts)
  }

  /** A report is justified exactly if the queue of its detector was recent. */
  lemma ReportIsJustifiedExactly(rs: RadarSpec, kmalloc: Kmalloc, d: Detector, p: Pools, e: PulseEvent)
    requires ValidSpec(rs) && Inv(rs, d) && InOrder(d, e.ts)
    requires AddPulse(rs, kmalloc, d, p, e).radar.Some?
    ensures Justified(rs, d, e) <==> Recent(d, e.ts)
  {
    var o := AddPulse(rs, kmalloc, d, p, e);
    assert Accepts(rs, d, e) && o.det == Accepting(d, e.ts).(seqs := o.det.seqs) && IsRadar(rs, o.radar.value);
    hide AddPulse, QueueInv, Supported, IsRadar, Accepts;
    if Recent(d, e.ts) {
      ReportIsSoundExactly(rs, kmalloc, d, p, e);
      SupportIgnoresList(rs, o.det, Accepting(d, e.ts), o.radar.value);
    } else {
      hide Recent;
      AddPulseKeepsQueue(rs, kmalloc, d, p, e);
      OldQueueStays(rs, kmalloc, d, p, e);
      forall s ensures !Supported(rs, Accepting(d, e.ts), s) {
        NothingSupported(rs, o.det, s);
        if Supported(rs, Accepting(d, e.ts), s) {
          SupportIgnoresList(rs, Accepting(d, e.ts), o.det, s);
        }
      }
    }
  }

  lemma UpdateSound(specs: seq<RadarSpec>, dets: seq<Detector>, i: nat, d: Detector, strict: bool)
    requires DetectorsSound(specs, dets, strict) && i < |specs|
    requires specs[i].ppb >= 1 && Inv(specs[i], d) && (strict ==> AllSupported(specs[i], d))
    ensures DetectorsSound(specs, dets[i := d], strict)
  {
    hide Inv, ValidSpec, AllSupported;
  }

  /** The report of detector i is justified exactly if its queue is recent. */
  ghost predicate ReportsExactly(specs: seq<RadarSpec>, dets: seq<Detector>, i: nat, e: PulseEvent) {
    && i < |dets| == |specs| && specs[i].ppb >= 1
    && (Justified(specs[i], dets[i], e) <==> Recent(dets[i], e.ts))
  }

  lemma ReportsUnchanged(specs: seq<RadarSpec>, dets: seq<Detector>, i: nat, d: Detector, k: nat, e: PulseEvent)
    requires i < |dets| && k != i && ReportsExactly(specs, dets[i := d], k, e)
    ensures ReportsExactly(specs, dets, k, e)
  {
  }

  /** One detector of the channel sees the pulse. */
  lemma ListenSound(kmalloc: Kmalloc, specs: seq<RadarSpec>, dets: seq<Detector>, p: Pools, e: PulseEvent, i: nat,
                    strict: bool)
    requires DetectorsSound(specs, dets, strict) && DetectorsOk(specs, dets, e.ts) && i < |specs|
    requires strict ==> Recent(dets[i], e.ts)
    ensures specs[i].ppb >= 1
    ensures var o := AddPulse(specs[i], kmalloc, dets[i], p, e);
            && DetectorsSound(specs, dets[i := o.det], strict)
            && DetectorsSound(specs, dets[i := Reset(o.det, o.pools, e.ts).0], strict)
            && (o.radar == None ==> DetectorsOk(specs, dets[i := o.det], e.ts))
            && (o.radar.Some? ==> ReportsExactly(specs, dets, i, e))
  {
    assert Inv(specs[i], dets[i]) && DetectorOk(specs[i], dets[i], e.ts) && ValidSpec(specs[i]);
    assert strict ==> AllSupported(specs[i], dets[i]);
    assert InOrder(dets[i], e.ts);
    hide DetectorOk, ValidSpec, AddPulse, Inv, Recent, Justified, DetectorsOk, DetectorsSound, InOrder, Reset,
         AllSupported, Accepts;
    var o := AddPulse(specs[i], kmalloc, dets[i], p, e);
    AddPulseKeepsInv(specs[i], kmalloc, dets[i], p, e);
    AllSupportedExactly(specs[i], kmalloc, dets[i], p, e);
    UpdateSound(specs, dets, i, o.det, strict);
    ResetInv(specs[i], o.det, o.pools, e.ts);
    UpdateSound(specs, dets, i, Reset(o.det, o.pools, e.ts).0, strict);
    AddPulseOk(specs[i], kmalloc, dets[i], p, e);
    if o.radar == None {
      UpdateOk(specs, dets, i, o.det, e.ts);
    } else {
      ReportIsJustifiedExactly(specs[i], kmalloc, dets[i], p, e);
    }
  }

  /** Matching a pulse on one channel: soundness is kept, and a report is justified exactly if the queue of the detector
      that fires was recent. */
  lemma {:induction false} MatchSound(kmalloc: Kmalloc, specs: seq<RadarSpec>, dets: seq<Detector>, p: Pools,
                                      e: PulseEvent, i: nat, strict: bool)
    requires DetectorsSound(specs, dets, strict) && DetectorsOk(specs, dets, e.ts) && i <= |specs|
    requires strict ==> forall j :: i <= j < |dets| ==> Recent(dets[j], e.ts)
    ensures var (dets', _, fired) := Match(kmalloc, specs, dets, p, e, i);
            && DetectorsSound(specs, dets', strict)
            && (fired.Some? ==> ReportsExactly(specs, dets, fired.value, e))
    decreases |specs| - i
  {
    hide AddPulse, Recent, Reset, ReportsExactly, Inv, AllSupported, DetectorOk;
    if i < |specs| {
      ListenSound(kmalloc, specs, dets, p, e, i, strict);
      var o := AddPulse(specs[i], kmalloc, dets[i], p, e);
      hide DetectorsSound, DetectorsOk, ValidSpecs;
      if o.radar == None {
        MatchSound(kmalloc, specs, dets[i := o.det], o.pools, e, i + 1, strict);
        var fired := Match(kmalloc, specs, dets, p, e, i).2;
        if fired.Some? {
          ReportsUnchanged(specs, dets, i, o.det, fired.value, e);
        }
      }
    }
  }

  lemma {:induction false} ResetDetectorsSound(specs: seq<RadarSpec>, dets: seq<Detector>, p: Pools, ts: u64)
    requires ValidSpecs(specs) && |dets| == |specs|
    ensures var r := ResetDetectors(dets, p, ts).0;
            DetectorsSound(specs, r, true) && Drained(r)
  {
    hide QueueInv, AllSupported, AllSupportedOrExpired;
    if dets != [] {
      var n := |dets| - 1;
      ResetDetectorsSound(specs[..n], dets[..n], p, ts);
      var (front, p1) := ResetDetectors(dets[..n], p, ts);
      ResetInv(specs[n], dets[n], p1, ts);
    }
  }

  lemma {:induction false} ResetChannelsSound(specs: seq<RadarSpec>, channels: seq<Channel>, p: Pools, ts: u64)
    requires ValidSpecs(specs) && forall c :: 0 <= c < |channels| ==> |channels[c].dets| == |specs|
    ensures SoundAndDrained(specs, ResetChannels(channels, p, ts).0)
  {
    hide DetectorsSound, Drained;
    if channels != [] {
      var n := |channels| - 1;
      ResetChannelsSound(specs, channels[..n], p, ts);
      var (front, p1) := ResetChannels(channels[..n], p, ts);
      assert SoundAndDrained(specs, front);
      ResetDetectorsSound(specs, channels[n].dets, p1, ts);
    }
  }

  ghost predicate Drained(dets: seq<Detector>) {
    forall i :: 0 <= i < |dets| ==> dets[i].pulses == []
  }

  ghost predicate SoundAndDrained(specs: seq<RadarSpec>, channels: seq<Channel>) {
    forall c :: 0 <= c < |channels| ==> DetectorsSound(specs, channels[c].dets, true) && Drained(channels[c].dets)
  }

  lemma StrictlySound(specs: seq<RadarSpec>, dets: seq<Detector>, strict: bool)
    requires DetectorsSound(specs, dets, true)
    ensures DetectorsSound(specs, dets, strict)
  {
  }

  lemma RewindSound(pd: Pattern, p: Pools, e: PulseEvent, strict: bool)
    requires PatternInv(pd) && PatternSound(pd, strict)
    ensures PatternSound(Rewind(pd, p, e.ts).0, strict)
    ensures RecentOn(pd, e) ==> RecentOn(Rewind(pd, p, e.ts).0, e)
  {
    hide DetectorsSound, DetectorsOk;
    if e.ts < pd.lastTs {
      ResetChannelsSound(pd.specs, pd.channels, p, pd.lastTs);
      var channels := ResetChannels(pd.channels, p, pd.lastTs).0;
      forall c | 0 <= c < |channels| ensures DetectorsSound(pd.specs, channels[c].dets, strict) {
        StrictlySound(pd.specs, channels[c].dets, strict);
      }
    }
  }

  lemma GetChannelSound(kmalloc: Kmalloc, pd: Pattern, p: Pools, e: PulseEvent, strict: bool)
    requires PatternInv(pd) && PatternSound(pd, strict)
    ensures var pd' := GetChannel(kmalloc, pd, p, e.freq).1;
            PatternSound(pd', strict) && (RecentOn(pd, e) ==> RecentOn(pd', e))
  {
    forall i | 0 <= i < |pd.specs|
      ensures Inv(pd.specs[i], NEW_DETECTOR) && AllSupported(pd.specs[i], NEW_DETECTOR)
    {
      NewDetectorInv(pd.specs[i]);
    }
    hide QueueInv, AllSupported, AllSupportedOrExpired, InitDetectors, ExitDetectors;
    assert DetectorsSound(pd.specs, NewDetectors(|pd.specs|), strict);
  }

  /** The detectors that get to see the pulse: those of its channel, rewound if time went back. */
  ghost function Listeners(kmalloc: Kmalloc, pd: Pattern, p: Pools, e: PulseEvent): seq<Detector> {
    var (at, pd1, p1) := GetChannel(kmalloc, pd, p, e.freq);
    if at.None? then [] else Rewind(pd1, p1, e.ts).0.channels[at.value].dets
  }

  /** Which detector on the pulse's channel reports. */
  ghost function Reporter(kmalloc: Kmalloc, pd: Pattern, p: Pools, e: PulseEvent): (r: Option<nat>)
    requires Shaped(pd)
    ensures r.Some? ==> r.value < |pd.specs| == |Listeners(kmalloc, pd, p, e)|
    ensures pd.region != Unset ==>
              var v := PatternAddPulse(kmalloc, pd, p, e);
              v.radar == r.Some? && v.found == if r.Some? then Some(pd.specs[r.value]) else None
  {
    GetChannelKeepsShape(kmalloc, pd, p, e.freq);
    var (at, pd1, p1) := GetChannel(kmalloc, pd, p, e.freq);
    RewindKeepsShape(pd1, p1, e.ts);
    var (pd2, p2) := Rewind(pd1, p1, e.ts);
    if at.None? then None else Match(kmalloc, pd2.specs, pd2.channels[at.value].dets, p2, e, 0).2
  }

  /** Soundness of one pulse through the pattern detector, whatever the age of its queues: with a domain set, a report
      is justified exactly if the queue of the detector that reports is recent. */
  lemma PatternAddPulseSound(kmalloc: Kmalloc, pd: Pattern, p: Pools, e: PulseEvent, strict: bool)
    requires PatternInv(pd) && PatternSound(pd, strict) && (strict ==> RecentOn(pd, e))
    ensures var v := PatternAddPulse(kmalloc, pd, p, e);
            && PatternSound(v.pattern, strict)
            && (v.radar && pd.region != Unset ==>
                  ReportsExactly(pd.specs, Listeners(kmalloc, pd, p, e), Reporter(kmalloc, pd, p, e).value, e))
  {
    if pd.region != Unset {
      GetChannelOk(kmalloc, pd, p, e.freq);
      GetChannelSound(kmalloc, pd, p, e, strict);
      var (at, pd1, p1) := GetChannel(kmalloc, pd, p, e.freq);
      if at.Some? {
        RewindKeepsShape(pd1, p1, e.ts);
        RewindOk(pd1, p1, e.ts);
        RewindSound(pd1, p1, e, strict);
        var (pd2, p2) := Rewind(pd1, p1, e.ts);
        assert pd2.specs == pd.specs && Listeners(kmalloc, pd, p, e) == pd2.channels[at.value].dets;
        hide DetectorsSound, DetectorsOk, GetChannel, Rewind, Match, RecentOn, ValidSpecs, ReportsExactly, Listeners;
        MatchChannelSound(kmalloc, pd2, p2, at.value, e, strict);
      }
    }
  }

  lemma MatchChannelSound(kmalloc: Kmalloc, pd: Pattern, p: Pools, c: nat, e: PulseEvent, strict: bool)
    requires PatternInv(pd) && PatternSound(pd, strict) && (strict ==> RecentOn(pd, e)) && pd.lastTs == e.ts
    requires c < |pd.channels| && pd.channels[c].freq == e.freq
    ensures var ch := pd.channels[c];
            var (dets, p', fired) := Match(kmalloc, pd.specs, ch.dets, p, e, 0);
            && PatternSound(pd.(channels := pd.channels[c := ch.(dets := dets)]), strict)
            && (fired.Some? ==> ReportsExactly(pd.specs, ch.dets, fired.value, e))
  {
    var dets := pd.channels[c].dets;
    assert DetectorsSound(pd.specs, dets, strict) && DetectorsOk(pd.specs, dets, e.ts);
    assert strict ==> AllRecent(dets, e.ts);
    MatchSound(kmalloc, pd.specs, dets, p, e, 0, strict);
    hide DetectorsSound, DetectorsOk, Match, ReportsExactly;
  }

  // ---------- runs ----------

  /** In a run, every pulse comes while the queues of its channel are recent. */
  ghost predicate RunRecent(kmalloc: Kmalloc, pd: Pattern, p: Pools, ops: seq<Op>)
    requires PatternInv(pd)
  {
    ops != [] ==>
      && RunRecent(kmalloc, pd, p, ops[..|ops| - 1])
      && (ops[|ops| - 1].Pulse? ==> RecentOn(Run(kmalloc, pd, p, ops[..|ops| - 1]).0, ops[|ops| - 1].event))
  }

  /** Over every run, each live sequence of each detector is accounted for or has expired; over every run with recent
      queues all are accounted for. */
  lemma {:induction false} RunSound(kmalloc: Kmalloc, pd: Pattern, p: Pools, ops: seq<Op>, strict: bool)
    requires PatternInv(pd) && PatternSound(pd, strict) && (strict ==> RunRecent(kmalloc, pd, p, ops))
    ensures PatternSound(Run(kmalloc, pd, p, ops).0, strict)
  {
    hide PatternAddPulse, RecentOn, ChannelsOk, DetectorsSound, ReportsExactly;
    if ops != [] {
      RunSound(kmalloc, pd, p, ops[..|ops| - 1], strict);
      var (pd1, p1) := Run(kmalloc, pd, p, ops[..|ops| - 1]);
      if ops[|ops| - 1].Pulse? {
        PatternAddPulseSound(kmalloc, pd1, p1, ops[|ops| - 1].event, strict);
      }
    }
  }

  /** Over every run, with queues of any age: each report is justified by the pulses its detector has accepted, exactly
      if the queue of this detector was recent. */
  lemma RunReportsExactly(kmalloc: Kmalloc, pd: Pattern, p: Pools, ops: seq<Op>, k: nat)
    requires PatternInv(pd) && PatternSound(pd, false) && k < |ops| && ops[k].Pulse?
    ensures var (now, pools) := Run(kmalloc, pd, p, ops[..k]);
            var e := ops[k].event;
            now.region != Unset && PatternAddPulse(kmalloc, now, pools, e).radar ==>
              var i, dets := Reporter(kmalloc, now, pools, e).value, Listeners(kmalloc, now, pools, e);
              Justified(now.specs[i], dets[i], e) <==> Recent(dets[i], e.ts)
  {
    RunSound(kmalloc, pd, p, ops[..k], false);
    var (now, pools) := Run(kmalloc, pd, p, ops[..k]);
    hide Run, PatternSound, PatternAddPulse, Justified, Recent, Reporter;
    PatternAddPulseSound(kmalloc, now, pools, ops[k].event, false);
  }

  /** A new pattern detector is sound. */
  lemma NewPatternSound()
    ensures PatternInv(NEW_PATTERN) && PatternSound(NEW_PATTERN, true)
  {
  }
}
