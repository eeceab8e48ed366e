/** The queues of all channels as parts of the accepted pulses, over every stream of pulses and domain changes. */
module PatternHistory {
  import opened Options
  import opened MachineWords
  import opened DfsModel
  import opened DfsSoundness
  import opened DfsHistory
  import opened DfsTables
  import opened PatternModel
  import opened PatternSafety

  ghost predicate QueuesWhole(dets: seq<Detector>) {
    forall i :: 0 <= i < |dets| ==> WholeQueue(dets[i])
  }

  /** Every queue of every channel is the newest part of the pulses its detector has accepted since its reset. */
  ghost predicate AllWhole(channels: seq<Channel>) {
    forall c :: 0 <= c < |channels| ==> QueuesWhole(channels[c].dets)
  }

  /** How often the allocation of a queue element has failed. */
  function Errors(p: Pools): int { p.pulse.errors }

  lemma {:induction false} InitErrors(kmalloc: Kmalloc, p: Pools, n: nat)
    ensures Errors(InitDetectors(kmalloc, p, n).1) == Errors(p)
    decreases n
  {
    if n > 0 && kmalloc(p.calls) {
      InitErrors(kmalloc, Register(Kmalloc1(kmalloc, p).1), n - 1);
    }
  }

  lemma {:induction false} ExitErrors(dets: seq<Detector>, p: Pools)
    ensures Errors(ExitDetectors(dets, p)) == Errors(p)
  {
    if dets != [] {
      ExitErrors(dets[..|dets| - 1], p);
    }
  }

  lemma {:induction false} ExitChannelsErrors(channels: seq<Channel>, p: Pools)
    ensures Errors(ExitChannels(channels, p)) == Errors(p)
  {
    hide ExitDetectors;
    if channels != [] {
      var n := |channels| - 1;
      ExitChannelsErrors(channels[..n], p);
      ExitErrors(channels[n].dets, ExitChannels(channels[..n], p));
    }
  }

  lemma {:induction false} ResetDetectorsWhole(dets: seq<Detector>, p: Pools, ts: u64)
    ensures var (r, p') := ResetDetectors(dets, p, ts); QueuesWhole(r) && Errors(p') == Errors(p)
  {
    if dets != [] {
      ResetDetectorsWhole(dets[..|dets| - 1], p, ts);
    }
  }

  lemma {:induction false} ResetChannelsWhole(channels: seq<Channel>, p: Pools, ts: u64)
    ensures var (r, p') := ResetChannels(channels, p, ts); AllWhole(r) && Errors(p') == Errors(p)
  {
    hide ResetDetectors, QueuesWhole;
    if channels != [] {
      var n := |channels| - 1;
      ResetChannelsWhole(channels[..n], p, ts);
      ResetDetectorsWhole(channels[n].dets, ResetChannels(channels[..n], p, ts).1, ts);
      assert AllWhole(ResetChannels(channels[..n], p, ts).0);
    }
  }

  lemma GetChannelWhole(kmalloc: Kmalloc, pd: Pattern, p: Pools, freq: nat)
    ensures var (_, pd', p') := GetChannel(kmalloc, pd, p, freq);
            Errors(p') == Errors(p) && (AllWhole(pd.channels) ==> AllWhole(pd'.channels))
  {
    hide InitDetectors, ExitDetectors;
    assert QueuesWhole(NewDetectors(|pd.specs|));
    hide WholeQueue, QueuesWhole;
    var p2 := Kmalloc1(kmalloc, Kmalloc1(kmalloc, p).1).1;
    InitErrors(kmalloc, p2, |pd.specs|);
    var (k, p3) := InitDetectors(kmalloc, p2, |pd.specs|);
    ExitErrors(NewDetectors(k), p3);
  }

  lemma RewindWhole(pd: Pattern, p: Pools, ts: u64)
    ensures var (pd', p') := Rewind(pd, p, ts);
            Errors(p') == Errors(p) && (AllWhole(pd.channels) ==> AllWhole(pd'.channels))
  {
    ResetChannelsWhole(pd.channels, p, pd.lastTs);
  }

  /** One detector of the channel sees the pulse. */
  lemma ListenWholeExactly(kmalloc: Kmalloc, specs: seq<RadarSpec>, dets: seq<Detector>, p: Pools, e: PulseEvent,
                           i: nat)
    requires ValidSpecs(specs) && DetectorsOk(specs, dets, e.ts) && i < |specs| && QueuesWhole(dets)
    ensures specs[i].ppb >= 1
    ensures var o := AddPulse(specs[i], kmalloc, dets[i], p, e);
            && Errors(o.pools) >= Errors(p)
            && (o.radar == None ==>
                  && DetectorsOk(specs, dets[i := o.det], e.ts) && (WholeQueue(o.det) <==> Errors(o.pools) == Errors(p))
                  && (WholeQueue(o.det) ==> QueuesWhole(dets[i := o.det])))
            && (o.radar.Some? ==>
                  var (d, p') := Reset(o.det, o.pools, e.ts); QueuesWhole(dets[i := d]) && Errors(p') == Errors(p))
  {
    assert ValidSpec(specs[i]) && DetectorOk(specs[i], dets[i], e.ts) && WholeQueue(dets[i]);
    assert InOrder(dets[i], e.ts) && QueueInv(specs[i], dets[i]);
    hide WholeQueue, DetectorOk, ValidSpec, AddPulse, DetectorsOk, InOrder, QueueInv, Reset;
    var o := AddPulse(specs[i], kmalloc, dets[i], p, e);
    WholeQueueExactly(specs[i], kmalloc, dets[i], p, e);
    AddPulseOk(specs[i], kmalloc, dets[i], p, e);
    if o.radar == None {
      UpdateOk(specs, dets, i, o.det, e.ts);
    } else {
      ResetIsWhole(o.det, o.pools, e.ts);
    }
  }

  /** Matching a pulse on one channel: all its queues stay whole exactly if no allocation failed. */
  lemma {:induction false} MatchWholeExactly(kmalloc: Kmalloc, specs: seq<RadarSpec>, dets: seq<Detector>, p: Pools,
                                             e: PulseEvent, i: nat)
    requires ValidSpecs(specs) && DetectorsOk(specs, dets, e.ts) && i <= |specs| && QueuesWhole(dets)
    ensures var (dets', p', _) := Match(kmalloc, specs, dets, p, e, i);
            (QueuesWhole(dets') <==> Errors(p') == Errors(p)) && Errors(p') >= Errors(p)
    decreases |specs| - i
  {
    if i < |specs| {
      ListenWholeExactly(kmalloc, specs, dets, p, e, i);
      var o := AddPulse(specs[i], kmalloc, dets[i], p, e);
      if o.radar == None {
        MatchRest(kmalloc, specs, dets[i := o.det], o.pools, e, i + 1);
        if WholeQueue(o.det) {
          MatchWholeExactly(kmalloc, specs, dets[i := o.det], o.pools, e, i + 1);
        }
      }
      hide WholeQueue, AddPulse, DetectorsOk, Reset, Errors;
    }
  }

  /** The detectors behind number i leave those before it alone, and failures are only ever added. */
  lemma {:induction false} MatchRest(kmalloc: Kmalloc, specs: seq<RadarSpec>, dets: seq<Detector>, p: Pools,
                                     e: PulseEvent, i: nat)
    requires ValidSpecs(specs) && |dets| == |specs| && i <= |specs|
    ensures var (dets', p', _) := Match(kmalloc, specs, dets, p, e, i);
            Errors(p') >= Errors(p) && forall j :: 0 <= j < i ==> dets'[j] == dets[j]
    decreases |specs| - i
  {
    if i < |specs| {
      var o := AddPulse(specs[i], kmalloc, dets[i], p, e);
      AddPulseErrors(specs[i], kmalloc, dets[i], p, e);
      if o.radar == None {
        MatchRest(kmalloc, specs, dets[i := o.det], o.pools, e, i + 1);
      }
      hide AddPulse, ValidSpecs;
    }
  }

  lemma AddPulseErrors(rs: RadarSpec, kmalloc: Kmalloc, d: Detector, p: Pools, e: PulseEvent)
    requires rs.ppb >= 1
    ensures Errors(AddPulse(rs, kmalloc, d, p, e).pools) >= Errors(p)
  {
    hide Candidates, Extend, MaxContinued, TakeMany, Accepts, Enqueued;
  }

  ghost predicate WholeExactly(pd: Pattern, p: Pools, pd': Pattern, p': Pools) {
    Errors(p') >= Errors(p) && (AllWhole(pd.channels) ==> (AllWhole(pd'.channels) <==> Errors(p') == Errors(p)))
  }

  lemma MatchChannelWhole(kmalloc: Kmalloc, pd: Pattern, p: Pools, c: nat, e: PulseEvent)
    requires PatternInv(pd) && pd.lastTs == e.ts && c < |pd.channels|
    ensures var ch := pd.channels[c];
            var (dets, p', _) := Match(kmalloc, pd.specs, ch.dets, p, e, 0);
            WholeExactly(pd, p, pd.(channels := pd.channels[c := ch.(dets := dets)]), p')
  {
    var ch := pd.channels[c];
    assert DetectorsOk(pd.specs, ch.dets, e.ts);
    hide DetectorsOk, QueuesWhole;
    MatchRest(kmalloc, pd.specs, ch.dets, p, e, 0);
    var (dets, p', _) := Match(kmalloc, pd.specs, ch.dets, p, e, 0);
    if AllWhole(pd.channels) {
      MatchWholeExactly(kmalloc, pd.specs, ch.dets, p, e, 0);
      var after := pd.channels[c := ch.(dets := dets)];
      assert after[c].dets == dets;
      hide Match;
      assert AllWhole(after) <==> QueuesWhole(dets);
    }
  }

  lemma PulseWholeExactly(kmalloc: Kmalloc, pd: Pattern, p: Pools, e: PulseEvent)
    requires PatternInv(pd)
    ensures var v := PatternAddPulse(kmalloc, pd, p, e); WholeExactly(pd, p, v.pattern, v.pools)
  {
    if pd.region != Unset {
      GetChannelOk(kmalloc, pd, p, e.freq);
      GetChannelWhole(kmalloc, pd, p, e.freq);
      var (at, pd1, p1) := GetChannel(kmalloc, pd, p, e.freq);
      if at.Some? {
        RewindKeepsShape(pd1, p1, e.ts);
        RewindOk(pd1, p1, e.ts);
        RewindWhole(pd1, p1, e.ts);
        var (pd2, p2) := Rewind(pd1, p1, e.ts);
        hide GetChannel, Rewind, Match, AllWhole, Errors, ChannelsOk;
        MatchChannelWhole(kmalloc, pd2, p2, at.value, e);
      }
    }
  }

  lemma DomainWholeExactly(pd: Pattern, p: Pools, region: Region)
    ensures var (pd', p', _) := SetDomain(pd, p, region); WholeExactly(pd, p, pd', p')
  {
    ExitChannelsErrors(pd.channels, p);
  }

  /** All queues are whole after every prefix of the run. */
  ghost predicate WholeThroughout(kmalloc: Kmalloc, pd: Pattern, p: Pools, ops: seq<Op>)
    requires PatternInv(pd)
  {
    forall k :: 0 <= k <= |ops| ==> WholeAt(kmalloc, pd, p, ops[..k])
  }

  /** Over every stream of pulses and domain changes, wraparound of time stamps included: at all times every queue is
      the newest part of all pulses accepted since the last reset, exactly if no allocation of a queue element fails. */
  lemma {:induction false} RunWholeExactly(kmalloc: Kmalloc, pd: Pattern, p: Pools, ops: seq<Op>)
    requires PatternInv(pd) && AllWhole(pd.channels)
    ensures var p' := Run(kmalloc, pd, p, ops).1;
            Errors(p') >= Errors(p) && (WholeThroughout(kmalloc, pd, p, ops) <==> Errors(p') == Errors(p))
  {
    hide AllWhole, PatternInv, PatternAddPulse, SetDomain, Errors;
    if ops == [] {
      assert ops[..0] == ops;
    } else {
      var front := ops[..|ops| - 1];
      RunWholeExactly(kmalloc, pd, p, front);
      var (pd1, p1) := Run(kmalloc, pd, p, front);
      match ops[|ops| - 1] {
        case Pulse(e) => PulseWholeExactly(kmalloc, pd1, p1, e);
        case Domain(region) => DomainWholeExactly(pd1, p1, region);
      }
      ThroughoutStep(kmalloc, pd, p, ops);
    }
  }

  ghost predicate WholeAt(kmalloc: Kmalloc, pd: Pattern, p: Pools, ops: seq<Op>)
    requires PatternInv(pd)
  {
    AllWhole(Run(kmalloc, pd, p, ops).0.channels)
  }

  lemma ThroughoutStep(kmalloc: Kmalloc, pd: Pattern, p: Pools, ops: seq<Op>)
    requires PatternInv(pd) && ops != []
    ensures WholeThroughout(kmalloc, pd, p, ops) <==>
            WholeThroughout(kmalloc, pd, p, ops[..|ops| - 1]) && WholeAt(kmalloc, pd, p, ops)
    ensures WholeThroughout(kmalloc, pd, p, ops[..|ops| - 1]) ==> WholeAt(kmalloc, pd, p, ops[..|ops| - 1])
  {
    hide WholeAt, PatternInv;
    var front := ops[..|ops| - 1];
    assert ops[..|ops|] == ops && front[..|front|] == front;
    forall k | 0 <= k <= |front| ensures ops[..k] == front[..k] {
    }
    if WholeThroughout(kmalloc, pd, p, ops) {
      forall k | 0 <= k <= |front| ensures WholeAt(kmalloc, pd, p, front[..k]) {
        assert front[..k] == ops[..k];
      }
    }
  }
}
