/** The pattern detector, which drives one detector per channel and radar type, as functions on values. */
module PatternModel {
  import opened Options
  import opened MachineWords
  import opened DfsModel
  import opened DfsTables

  /** The detectors of one channel, in the order of the radar types. */
  datatype Channel = Channel(freq: nat, dets: seq<Detector>)

  datatype Pattern = Pattern(region: Region, lastTs: u64, specs: seq<RadarSpec>, channels: seq<Channel>)

  const NEW_PATTERN := Pattern(Unset, 0, [], [])

  /** Position of the channel for `freq`, or |channels|. */
  function FindChannel(channels: seq<Channel>, freq: nat): (i: nat)
    ensures i <= |channels|
    ensures forall j :: 0 <= j < i ==> channels[j].freq != freq
    ensures i < |channels| ==> channels[i].freq == freq
  {
    if channels == [] || channels[0].freq == freq then 0 else 1 + FindChannel(channels[1..], freq)
  }

  function Kmalloc1(kmalloc: Kmalloc, p: Pools): (bool, Pools) {
    (kmalloc(p.calls), p.(calls := p.calls + 1))
  }

  /** Create up to n detectors, stopping at the first allocation failure; how many were created. */
  function InitDetectors(kmalloc: Kmalloc, p: Pools, n: nat): (r: (nat, Pools))
    ensures r.0 <= n
    decreases n
  {
    if n == 0 then (0, p)
    else
      var (ok, p1) := Kmalloc1(kmalloc, p);
      if !ok then (0, p1)
      else
        var (k, p2) := InitDetectors(kmalloc, Register(p1), n - 1);
        (k + 1, p2)
  }

  /** The destructors of these detectors, run in order. */
  function ExitDetectors(dets: seq<Detector>, p: Pools): Pools {
    if dets == [] then p
    else Deregister(Reset(dets[|dets| - 1], ExitDetectors(dets[..|dets| - 1], p), 0).1)
  }

  function NewDetectors(n: nat): (r: seq<Detector>)
    ensures |r| == n && forall i :: 0 <= i < n ==> r[i] == NEW_DETECTOR
  {
    seq(n, _ => NEW_DETECTOR)
  }

  /** channel_detector_create: on a failure everything created so far is destroyed again. */
  function CreateChannel(kmalloc: Kmalloc, p: Pools, specs: seq<RadarSpec>, freq: nat): (Option<Channel>, Pools) {
    var (ok1, p1) := Kmalloc1(kmalloc, p);
    if !ok1 then (None, p1)
    else
      var (ok2, p2) := Kmalloc1(kmalloc, p1);
      if !ok2 then (None, p2)
      else
        var (k, p3) := InitDetectors(kmalloc, p2, |specs|);
        if k < |specs| then (None, ExitDetectors(NewDetectors(k), p3))
        else (Some(Channel(freq, NewDetectors(k))), p3)
  }

  /** Reset these detectors, in order. */
  function ResetDetectors(dets: seq<Detector>, p: Pools, ts: u64): (r: (seq<Detector>, Pools))
    ensures |r.0| == |dets|
  {
    if dets == [] then ([], p)
    else
      var n := |dets| - 1;
      var (front, p1) := ResetDetectors(dets[..n], p, ts);
      var (d, p2) := Reset(dets[n], p1, ts);
      (front + [d], p2)
  }

  function ResetChannels(channels: seq<Channel>, p: Pools, ts: u64): (r: (seq<Channel>, Pools))
    ensures |r.0| == |channels|
  {
    if channels == [] then ([], p)
    else
      var n := |channels| - 1;
      var (front, p1) := ResetChannels(channels[..n], p, ts);
      var (dets, p2) := ResetDetectors(channels[n].dets, p1, ts);
      (front + [channels[n].(dets := dets)], p2)
  }

  function ExitChannels(channels: seq<Channel>, p: Pools): Pools {
    if channels == [] then p
    else
      var n := |channels| - 1;
      ExitDetectors(channels[n].dets, ExitChannels(channels[..n], p))
  }

  /** Feed a pulse to detectors number i and up, until one reports radar; that one is reset. */
  function Match(kmalloc: Kmalloc, specs: seq<RadarSpec>, dets: seq<Detector>, p: Pools, e: PulseEvent, i: nat)
    : (r: (seq<Detector>, Pools, Option<nat>))
    requires |dets| == |specs| && i <= |specs|
    requires forall j :: 0 <= j < |specs| ==> specs[j].ppb >= 1
    ensures |r.0| == |specs|
    ensures r.2.Some? ==> i <= r.2.value < |specs|
    decreases |specs| - i
  {
    if i == |specs| then (dets, p, None)
    else
      var o := AddPulse(specs[i], kmalloc, dets[i], p, e);
      if o.radar.Some? then
        var (d, p') := Reset(o.det, o.pools, e.ts);
        (dets[i := d], p', Some(i))
      else Match(kmalloc, specs, dets[i := o.det], o.pools, e, i + 1)
  }

  /** Every channel has one detector per radar type, channel frequencies are distinct, and the types are sound. */
  ghost predicate Shaped(pd: Pattern) {
    && (pd.region != Unset ==> RadarTypes(pd.region) == Some(pd.specs))
    && ValidSpecs(pd.specs)
    && (forall c :: 0 <= c < |pd.channels| ==> |pd.channels[c].dets| == |pd.specs|)
    && (forall c, c' :: 0 <= c < c' < |pd.channels| ==> pd.channels[c].freq != pd.channels[c'].freq)
  }

  datatype Verdict = Verdict(pattern: Pattern, pools: Pools, radar: bool, found: Option<RadarSpec>)

  /** The channel lookup of dpd_add_pulse: the position of the channel, if there is one or one can be created. */
  function GetChannel(kmalloc: Kmalloc, pd: Pattern, p: Pools, freq: nat): (r: (Option<nat>, Pattern, Pools))
    ensures r.0.Some? ==> r.0.value < |r.1.channels| && r.1.channels[r.0.value].freq == freq
    ensures r.1.specs == pd.specs
  {
    var c := FindChannel(pd.channels, freq);
    if c < |pd.channels| then (Some(c), pd, p)
    else
      match CreateChannel(kmalloc, p, pd.specs, freq)
      case (None, p') => (None, pd, p')
      case (Some(ch), p') => (Some(0), pd.(channels := [ch] + pd.channels), p')
  }

  /** On a time stamp wraparound all detectors restart from the last time stamp before it. */
  function Rewind(pd: Pattern, p: Pools, ts: u64): (r: (Pattern, Pools))
    ensures |r.0.channels| == |pd.channels| && r.0.specs == pd.specs && r.0.lastTs == ts
  {
    if ts < pd.lastTs then
      var (channels, p') := ResetChannels(pd.channels, p, pd.lastTs);
      (pd.(channels := channels, lastTs := ts), p')
    else (pd.(lastTs := ts), p)
  }

  /** dpd_add_pulse */
  ghost function PatternAddPulse(kmalloc: Kmalloc, pd: Pattern, p: Pools, e: PulseEvent): (v: Verdict)
    requires Shaped(pd)
    ensures Shaped(v.pattern)
  {
    if pd.region == Unset then Verdict(pd, p, true, None)
    else
      var (at, pd1, p1) := GetChannel(kmalloc, pd, p, e.freq);
      if at.None? then Verdict(pd1, p1, false, None)
      else
        GetChannelKeepsShape(kmalloc, pd, p, e.freq);
        RewindKeepsShape(pd1, p1, e.ts);
        var (pd2, p2) := Rewind(pd1, p1, e.ts);
        var ch := pd2.channels[at.value];
        var (dets, p3, fired) := Match(kmalloc, pd2.specs, ch.dets, p2, e, 0);
        Verdict(pd2.(channels := pd2.channels[at.value := ch.(dets := dets)]), p3, fired.Some?,
                if fired.Some? then Some(pd2.specs[fired.value]) else None)
  }

  /** dpd_set_domain */
  function SetDomain(pd: Pattern, p: Pools, region: Region): (Pattern, Pools, bool) {
    if pd.region == region then (pd, p, true)
    else
      match RadarTypes(region)
      case None => (pd.(region := Unset), p, false)
      case Some(specs) => (Pattern(region, pd.lastTs, specs, []), ExitChannels(pd.channels, p), true)
  }

  lemma GetChannelKeepsShape(kmalloc: Kmalloc, pd: Pattern, p: Pools, freq: nat)
    requires Shaped(pd)
    ensures Shaped(GetChannel(kmalloc, pd, p, freq).1)
  {
  }

  /** A detector that restarts at a time has nothing listed and nothing queued. */
  lemma {:induction false} DetectorsRestart(dets: seq<Detector>, p: Pools, ts: u64)
    ensures forall k :: 0 <= k < |dets| ==> ResetDetectors(dets, p, ts).0[k] == Detector(ts, [], [], [], [])
  {
    if dets != [] {
      DetectorsRestart(dets[..|dets| - 1], p, ts);
    }
  }

  lemma {:induction false} ChannelsRestart(channels: seq<Channel>, p: Pools, ts: u64)
    ensures var r := ResetChannels(channels, p, ts).0;
            forall c :: 0 <= c < |channels| ==>
              && r[c].freq == channels[c].freq && |r[c].dets| == |channels[c].dets|
              && forall k :: 0 <= k < |r[c].dets| ==> r[c].dets[k] == Detector(ts, [], [], [], [])
  {
    if channels != [] {
      var n := |channels| - 1;
      var (front, p1) := ResetChannels(channels[..n], p, ts);
      ChannelsRestart(channels[..n], p, ts);
      DetectorsRestart(channels[n].dets, p1, ts);
      hide ResetDetectors;
    }
  }

  lemma RewindKeepsShape(pd: Pattern, p: Pools, ts: u64)
    requires Shaped(pd)
    ensures Shaped(Rewind(pd, p, ts).0)
    ensures var pd' := Rewind(pd, p, ts).0;
            forall c :: 0 <= c < |pd.channels| ==> pd'.channels[c].freq == pd.channels[c].freq
  {
    ChannelsRestart(pd.channels, p, pd.lastTs);
  }

  /** When time goes back, every detector of every channel restarts at the last time before it; else none changes. */
  lemma RewindRestarts(pd: Pattern, p: Pools, ts: u64, c: nat, k: nat)
    requires Shaped(pd) && c < |pd.channels| && k < |pd.specs|
    ensures var dets := Rewind(pd, p, ts).0.channels[c].dets;
            && |dets| == |pd.specs|
            && dets[k] == if ts < pd.lastTs then Detector(pd.lastTs, [], [], [], []) else pd.channels[c].dets[k]
  {
    ChannelsRestart(pd.channels, p, pd.lastTs);
    hide ResetChannels;
  }
}
