/** Exactly periodic pulse trains, as long as the time window of a train ends before the 64-bit time stamps do. */
module DfsTrains {
  import opened Options
  import opened MachineWords
  import opened DfsMultiple
  import opened DfsModel

  /** The time of train pulse number i, counted from 0. */
  function TrainTime(start: nat, period: nat, i: nat): nat {
    start + i * period
  }

  /** Pulses of acceptable shape at exactly `period`, starting at `start`. */
  ghost predicate IsTrain(rs: RadarSpec, es: seq<PulseEvent>, start: nat, period: nat) {
    forall i :: 0 <= i < |es| ==>
      && es[i].ts == TrainTime(start, period, i)
      && rs.widthMin <= es[i].width <= rs.widthMax
      && (rs.chirp ==> es[i].chirp)
  }

  /** A period this radar type looks for. */
  predicate FitsSpec(rs: RadarSpec, period: nat) {
    && rs.tolerance <= period
    && rs.priMin <= period <= rs.priMax
    && PriToUse(rs, period) == period
  }

  /** A detector just reset, which accepts a first pulse at `start`. */
  predicate Ready(rs: RadarSpec, d: Detector, start: u64) {
    d.seqs == [] && d.pulses == [] && Wrap64(start - d.lastTs) >= rs.tolerance
  }

  function ReportAt(rs: RadarSpec): nat {
    if rs.ppbThresh < 2 then 2 else rs.ppbThresh
  }

  /** After n pulses of the train: one sequence, holding all of them. */
  ghost predicate TrainState(rs: RadarSpec, d: Detector, start: u64, period: nat, n: nat)
    requires rs.ppb >= 1
  {
    && 1 <= n
    && d.lastTs == TrainTime(start, period, n - 1)
    && (n == 1 ==> d.seqs == [] && d.pulses == [start])
    && (n >= 2 ==> d.seqs == [TrainSequence(rs, start, period, n)])
    && |d.pulses| <= n
  }

  ghost function TrainSequence(rs: RadarSpec, start: u64, period: nat, n: nat): Sequence
    requires rs.ppb >= 1 && n >= 1
  {
    var dur := Duration(rs, period);
    Sequence(period, dur, n, 0, start, Wrap64(TrainTime(start, period, n - 1)), Wrap64(start + dur))
  }

  // ---------- one pulse through a detector ----------

  /** No allocation has failed in between. */
  predicate Undisturbed(p: Pools, p': Pools) {
    p'.pulse.errors == p.pulse.errors && p'.pseq.errors == p.pseq.errors
  }

  lemma {:induction false} TakeManyFails(kmalloc: Kmalloc, calls: nat, c: Counters, n: nat)
    ensures var (k, _, c') := TakeMany(kmalloc, calls, c, n);
            c'.errors >= c.errors && (k == n <==> c'.errors == c.errors)
    decreases n
  {
    if n > 0 {
      var (ok, calls', c') := Take(kmalloc, calls, c);
      if ok {
        TakeManyFails(kmalloc, calls', c', n - 1);
      }
    }
  }

  /** The sequences listed once the pulse is accounted for, if no allocation fails. */
  function ListedAfter(rs: RadarSpec, d: Detector, ts: u64): seq<Sequence>
    requires rs.ppb >= 1
  {
    Reversed(Candidates(rs, d.pulses, 0, ts, MaxContinued(rs, d.seqs, ts))) + Extend(rs, d.seqs, ts)
  }

  lemma CreateFails(rs: RadarSpec, kmalloc: Kmalloc, d: Detector, p: Pools, ts: u64, minCount: nat)
    requires rs.ppb >= 1
    ensures var (ok, d', p') := CreateSequences(rs, kmalloc, d, p, ts, minCount);
            var found := Candidates(rs, d.pulses, 0, ts, minCount);
            && p'.pulse == p.pulse && p'.pseq.errors >= p.pseq.errors && (ok <==> p'.pseq.errors == p.pseq.errors)
            && (found == [] ==> ok) && (ok ==> d' == d.(seqs := Reversed(found) + d.seqs))
  {
    hide Candidates;
    var found := Candidates(rs, d.pulses, 0, ts, minCount);
    TakeManyFails(kmalloc, p.calls, p.pseq, |found|);
    assert found[..|found|] == found;
  }

  /** What an accepted pulse does, told by the allocations that failed. */
  lemma StepShape(rs: RadarSpec, kmalloc: Kmalloc, d: Detector, p: Pools, e: PulseEvent)
    requires rs.ppb >= 1 && Accepts(rs, d, e)
    ensures var o, ss := AddPulse(rs, kmalloc, d, p, e), ListedAfter(rs, d, e.ts);
            && o.pools.pulse.errors >= p.pulse.errors && o.pools.pseq.errors >= p.pseq.errors && o.det.lastTs == e.ts
            && (Candidates(rs, d.pulses, 0, e.ts, MaxContinued(rs, d.seqs, e.ts)) == [] ==>
                  o.pools.pseq.errors == p.pseq.errors)
            && (o.radar.Some? ==> Undisturbed(p, o.pools))
            && if o.pools.pseq.errors == p.pseq.errors then
                 && o.det.seqs == ss && o.radar == CheckDetection(rs, ss)
                 && o.det.pulses == if o.radar == None && o.pools.pulse.errors == p.pulse.errors
                                    then Enqueued(rs, d.pulses, e.ts) else d.pulses
               else o.det.seqs == [] && o.det.pulses == [] && o.radar == None
  {
    hide Candidates, Extend, MaxContinued, CreateSequences, Accepts, IsRadar, Enqueued;
    var d1 := d.(lastTs := e.ts, seqs := Extend(rs, d.seqs, e.ts), accepted := d.accepted + [e.ts]);
    var p1 := p.(pseq := Give(p.pseq, |d.seqs| - |d1.seqs|));
    CreateFails(rs, kmalloc, d1, p1, e.ts, MaxContinued(rs, d.seqs, e.ts));
  }

  /** When does an accepted pulse report radar? Exactly if a listed sequence has enough hits, and enough of them against
      its misses; the first such sequence is the one reported. */
  lemma ReportedExactly(rs: RadarSpec, kmalloc: Kmalloc, d: Detector, p: Pools, e: PulseEvent)
    requires rs.ppb >= 1 && rs.widthMin <= e.width <= rs.widthMax && (rs.chirp ==> e.chirp)
    requires Wrap64(e.ts - d.lastTs) >= rs.tolerance
    requires AddPulse(rs, kmalloc, d, p, e).pools.pseq.errors == p.pseq.errors
    ensures var radar, ss := AddPulse(rs, kmalloc, d, p, e).radar, ListedAfter(rs, d, e.ts);
            && (radar.Some? <==> exists s :: s in ss && s.count >= rs.ppbThresh && s.count * rs.numPri >= s.falses)
            && (radar.Some? ==> exists k :: 0 <= k < |ss| && radar.value == ss[k] && forall j :: 0 <= j < k ==>
                  ss[j].count < rs.ppbThresh || ss[j].count * rs.numPri < ss[j].falses)
  {
    StepShape(rs, kmalloc, d, p, e);
    hide AddPulse, ListedAfter;
    if AddPulse(rs, kmalloc, d, p, e).radar.Some? {
      var k := FirstDetected(rs, ListedAfter(rs, d, e.ts));
    }
  }

  lemma {:induction false} FirstDetected(rs: RadarSpec, ss: seq<Sequence>) returns (k: nat)
    requires CheckDetection(rs, ss).Some?
    ensures k < |ss| && CheckDetection(rs, ss).value == ss[k]
    ensures forall j :: 0 <= j < k ==> ss[j].count < rs.ppbThresh || ss[j].count * rs.numPri < ss[j].falses
  {
    k := 0;
    if !IsRadar(rs, ss[0]) {
      k := FirstDetected(rs, ss[1..]);
      k := k + 1;
    }
  }

  // ---------- how much a detector can have counted ----------

  /** A detector that cannot have counted more than m pulses, as hits or as misses. */
  ghost predicate CountsUpTo(d: Detector, m: nat) {
    |d.pulses| <= m && forall s | s in d.seqs :: 2 <= s.count && s.count + s.falses <= m
  }

  lemma {:induction false} CandidateCounts(rs: RadarSpec, pulses: seq<u64>, i: nat, ts: u64, minCount: nat)
    requires rs.ppb >= 1 && i <= |pulses|
    ensures forall c | c in Candidates(rs, pulses, i, ts, minCount) ::
              2 <= c.count && c.count + c.falses <= |pulses| - i + 1
    ensures |pulses| - i < minCount ==> Candidates(rs, pulses, i, ts, minCount) == []
    decreases |pulses| - i
  {
    if i < |pulses| {
      CandidateCounts(rs, pulses, i + 1, ts, minCount);
      hide Duration, PriToUse, LookBack, Wrap32, Wrap64;
      var pri := PriToUse(rs, Wrap32(ts - pulses[i]));
      LookBackBounds(pulses[i + 1..], ts, pri, Wrap64(ts - Duration(rs, pri)), rs.tolerance,
                     Lookback(2, 0, pulses[i]), 0);
    }
  }

  lemma {:induction false} ExtendedCounts(rs: RadarSpec, ss: seq<Sequence>, ts: u64, m: nat)
    requires forall s | s in ss :: 2 <= s.count && s.count + s.falses <= m
    ensures forall s | s in Extend(rs, ss, ts) :: 2 <= s.count && s.count + s.falses <= m + 1
  {
    hide Continues;
    if ss != [] {
      ExtendedCounts(rs, ss[..|ss| - 1], ts, m);
    }
  }

  /** One more pulse is counted at most once, and a report needs enough of them. */
  lemma CountStep(rs: RadarSpec, kmalloc: Kmalloc, d: Detector, p: Pools, e: PulseEvent, m: nat)
    requires rs.ppb >= 1 && CountsUpTo(d, m)
    ensures var o := AddPulse(rs, kmalloc, d, p, e);
            CountsUpTo(o.det, m + 1) && (o.radar.Some? ==> ReportAt(rs) <= m + 1)
  {
    if Accepts(rs, d, e) {
      StepShape(rs, kmalloc, d, p, e);
      CandidateCounts(rs, d.pulses, 0, e.ts, MaxContinued(rs, d.seqs, e.ts));
      ExtendedCounts(rs, d.seqs, e.ts, m);
      hide Candidates, Extend, MaxContinued, AddPulse, Enqueued, Accepts;
    }
  }

  // ---------- a train whose window does not wrap around ----------

  /** Pulse 1 is only queued, if there is memory for it. */
  lemma FirstPulse(rs: RadarSpec, kmalloc: Kmalloc, d: Detector, p: Pools, e: PulseEvent, period: nat)
    requires ValidSpec(rs) && Ready(rs, d, e.ts) && IsTrain(rs, [e], e.ts, period)
    ensures var o := AddPulse(rs, kmalloc, d, p, e);
            && o.radar == None && o.det.lastTs == e.ts && o.det.seqs == [] && o.pools.pseq.errors == p.pseq.errors
            && o.pools.pulse.errors >= p.pulse.errors
            && o.det.pulses == if o.pools.pulse.errors == p.pulse.errors then [e.ts] else []
  {
    assert [e][0] == e;
    StepShape(rs, kmalloc, d, p, e);
    hide AddPulse;
    assert Enqueued(rs, [], e.ts) == [e.ts];
  }

  /** The outcome that the n-th pulse of the train must have. */
  ghost predicate Progress(rs: RadarSpec, o: Outcome, start: u64, period: nat, n: nat)
    requires rs.ppb >= 1
  {
    && (1 <= n < ReportAt(rs) ==> o.radar == None && TrainState(rs, o.det, start, period, n))
    && (1 <= n == ReportAt(rs) ==> o.radar == Some(TrainSequence(rs, start, period, n)))
  }

  /** A step whose list of sequences ends up as [s]. */
  lemma StepWithOne(rs: RadarSpec, kmalloc: Kmalloc, d: Detector, p: Pools, e: PulseEvent, s: Sequence)
    requires rs.ppb >= 1 && Accepts(rs, d, e) && ListedAfter(rs, d, e.ts) == [s]
    requires AddPulse(rs, kmalloc, d, p, e).pools.pseq.errors == p.pseq.errors
    ensures var o := AddPulse(rs, kmalloc, d, p, e);
            && o.radar == (if IsRadar(rs, s) then Some(s) else None)
            && o.det.seqs == [s] && o.det.lastTs == e.ts && |o.det.pulses| <= |d.pulses| + 1
  {
    hide AddPulse, ListedAfter, Accepts, IsRadar, Enqueued;
    StepShape(rs, kmalloc, d, p, e);
    assert CheckDetection(rs, [s]) == if IsRadar(rs, s) then Some(s) else None;
  }

  /** The time window of a train that begins at `start` does not wrap around. */
  ghost predicate Roomy(rs: RadarSpec, start: u64, period: nat)
    requires rs.ppb >= 1
  {
    start + Duration(rs, period) < 0x1_0000_0000_0000_0000
  }

  lemma TrainFits(rs: RadarSpec, start: u64, period: nat, n: nat)
    requires ValidSpec(rs) && FitsSpec(rs, period) && n < ReportAt(rs) && Roomy(rs, start, period) && rs.ppb >= 2
    ensures TrainTime(start, period, n) < 0x1_0000_0000_0000_0000
    ensures n > 0 ==> TrainTime(start, period, n) == TrainTime(start, period, n - 1) + period
    ensures n >= 2 ==> TrainTime(start, period, n) <= Wrap64(start + Duration(rs, period))
  {
    TrainSteps(start, period, n, rs.ppb - 1);
    hide TrainTime;
  }

  lemma TrainSteps(start: nat, period: nat, n: nat, m: nat)
    ensures n > 0 ==> TrainTime(start, period, n) == TrainTime(start, period, n - 1) + period
    ensures n <= m ==> TrainTime(start, period, n) <= start + period * m
    ensures TrainTime(start, period, 0) == start && TrainTime(start, period, 1) == start + period
  {
  }

  lemma OneCandidate(rs: RadarSpec, start: u64, period: nat)
    requires ValidSpec(rs) && FitsSpec(rs, period) && start + period < 0x1_0000_0000_0000_0000
    ensures TrainTime(start, period, 1) == start + period
    ensures Candidates(rs, [start], 0, start + period, 0) == [TrainSequence(rs, start, period, 2)]
  {
    hide Duration;
    assert [start][0 + 1..] == [];
    assert Wrap32(start + period - start) == period;
    assert Candidate(rs, [start], 0, start + period) == TrainSequence(rs, start, period, 2);
    assert Candidates(rs, [start], 1, start + period, 0) == [];
  }

  /** What a step must deliver for the train to make progress. */
  lemma MakesProgress(rs: RadarSpec, o: Outcome, start: u64, period: nat, n: nat)
    requires ValidSpec(rs) && 2 <= n <= ReportAt(rs)
    requires var s := TrainSequence(rs, start, period, n);
             && o.radar == (if IsRadar(rs, s) then Some(s) else None)
             && o.det.seqs == [s] && o.det.lastTs == TrainTime(start, period, n - 1) && |o.det.pulses| <= n
    ensures Progress(rs, o, start, period, n)
  {
  }

  lemma TrainAccepts(rs: RadarSpec, d: Detector, e: PulseEvent, start: u64, period: nat)
    requires FitsSpec(rs, period) && ValidSpec(rs) && e.ts == d.lastTs + period && IsTrain(rs, [e], e.ts, period)
    ensures Accepts(rs, d, e)
  {
    assert [e][0] == e;
  }

  /** Pulse 2 starts the sequence, if there is memory for it. */
  lemma SecondPulse(rs: RadarSpec, kmalloc: Kmalloc, d: Detector, p: Pools, e: PulseEvent, start: u64, period: nat)
    requires ValidSpec(rs) && FitsSpec(rs, period)
    requires TrainState(rs, d, start, period, 1)
    requires e.ts == TrainTime(start, period, 1) && IsTrain(rs, [e], e.ts, period)
    ensures var o := AddPulse(rs, kmalloc, d, p, e);
            && o.pools.pseq.errors >= p.pseq.errors
            && if o.pools.pseq.errors == p.pseq.errors then Progress(rs, o, start, period, 2)
               else o.radar == None && CountsUpTo(o.det, 0)
  {
    hide Duration, Candidates, TrainTime, Roomy, IsRadar, AddPulse, Progress, Accepts, IsTrain, Wrap64, FitsSpec,
         Enqueued;
    var s := TrainSequence(rs, start, period, 2);
    TrainSteps(start, period, 1, 1);
    OneCandidate(rs, start, period);
    TrainAccepts(rs, d, e, start, period);
    StepShape(rs, kmalloc, d, p, e);
    if AddPulse(rs, kmalloc, d, p, e).pools.pseq.errors == p.pseq.errors {
      assert Reversed([s]) + [] == [s];
      StepWithOne(rs, kmalloc, d, p, e, s);
      MakesProgress(rs, AddPulse(rs, kmalloc, d, p, e), start, period, 2);
    }
  }

  lemma MatchesItself(period: nat, tolerance: nat)
    requires period > 0
    ensures GetMultiple(period, period, tolerance) == 1
  {
  }

  lemma Unwrapped(t: nat)
    requires t < 0x1_0000_0000_0000_0000
    ensures Wrap64(t) == t
  {
  }

  lemma PeriodFits(rs: RadarSpec, period: nat)
    requires ValidSpec(rs) && FitsSpec(rs, period)
    ensures rs.tolerance <= period < 0x1_0000
  {
  }

  lemma ExtendsTrain(rs: RadarSpec, ss: seq<Sequence>, start: u64, period: nat, n: nat, ts: u64)
    requires ValidSpec(rs) && FitsSpec(rs, period) && Roomy(rs, start, period)
    requires 2 <= n < ReportAt(rs)
    requires ss == [TrainSequence(rs, start, period, n)] && ts == TrainTime(start, period, n)
    ensures Extend(rs, ss, ts) == [TrainSequence(rs, start, period, n + 1)]
    ensures MaxContinued(rs, ss, ts) == n + 1
  {
    TrainFits(rs, start, period, n);
    TrainFits(rs, start, period, n - 1);
    hide Duration, TrainTime, Extend, MaxContinued, GetMultiple, Roomy, FitsSpec, Wrap64;
    Unwrapped(TrainTime(start, period, n));
    Unwrapped(TrainTime(start, period, n - 1));
    PeriodFits(rs, period);
    MatchesItself(period, rs.tolerance);
    OneListed(rs, ss[0], ts, period);
  }

  lemma OneListed(rs: RadarSpec, s: Sequence, ts: u64, period: nat)
    requires ts <= s.deadline && ts == s.lastTs + period && period < 0x1_0000_0000
    requires GetMultiple(period, s.pri, rs.tolerance) > 0
    ensures Extend(rs, [s], ts) == [s.(lastTs := ts, count := s.count + 1)] && MaxContinued(rs, [s], ts) == s.count + 1
  {
  }

  /** Every later pulse extends it and starts no other, so it needs no memory. */
  lemma LaterPulse(rs: RadarSpec, kmalloc: Kmalloc, d: Detector, p: Pools, e: PulseEvent,
                   start: u64, period: nat, n: nat)
    requires ValidSpec(rs) && FitsSpec(rs, period) && Roomy(rs, start, period)
    requires 2 <= n < ReportAt(rs) && TrainState(rs, d, start, period, n)
    requires e.ts == TrainTime(start, period, n) && IsTrain(rs, [e], e.ts, period)
    ensures var o := AddPulse(rs, kmalloc, d, p, e);
            Progress(rs, o, start, period, n + 1) && o.pools.pseq.errors == p.pseq.errors
  {
    hide Duration, TrainTime, Candidates, Roomy, IsRadar, AddPulse, Progress, Extend, MaxContinued, Accepts, IsTrain,
         Wrap64, FitsSpec, Enqueued;
    TrainFits(rs, start, period, n);
    TrainAccepts(rs, d, e, start, period);
    var s := TrainSequence(rs, start, period, n + 1);
    ExtendsTrain(rs, d.seqs, start, period, n, e.ts);
    CandidateCounts(rs, d.pulses, 0, e.ts, n + 1);
    StepShape(rs, kmalloc, d, p, e);
    assert Reversed<Sequence>([]) + [s] == [s];
    StepWithOne(rs, kmalloc, d, p, e, s);
    MakesProgress(rs, AddPulse(rs, kmalloc, d, p, e), start, period, n + 1);
  }

  lemma TrainPart(rs: RadarSpec, es: seq<PulseEvent>, start: u64, period: nat, n: nat)
    requires IsTrain(rs, es, start, period) && n < |es|
    ensures IsTrain(rs, es[..n], start, period) && es[n].ts == TrainTime(start, period, n)
    ensures IsTrain(rs, [es[n]], es[n].ts, period)
  {
  }

  lemma TrainStart(start: nat, period: nat)
    ensures TrainTime(start, period, 0) == start
  {
  }
}
