/** Exactly periodic pulse trains are reported, at the earliest pulse the threshold allows, if there is memory. */
module DfsCompleteness {
  import opened Options
  import opened MachineWords
  import opened DfsModel
  import opened DfsTrains
  import opened DfsLateTrains
  import opened DfsTrainMemory

  /** The outcome of the last of a series of pulses. */
  function AddPulses(rs: RadarSpec, kmalloc: Kmalloc, d: Detector, p: Pools, es: seq<PulseEvent>): Outcome
    requires rs.ppb >= 1
  {
    if es == [] then Outcome(d, p, None)
    else
      var o := AddPulses(rs, kmalloc, d, p, es[..|es| - 1]);
      AddPulse(rs, kmalloc, o.det, o.pools, es[|es| - 1])
  }

  // ---------- nothing is reported early ----------

  lemma {:induction false} CountedSoFar(rs: RadarSpec, kmalloc: Kmalloc, d: Detector, p: Pools, es: seq<PulseEvent>)
    requires rs.ppb >= 1 && CountsUpTo(d, 0)
    ensures CountsUpTo(AddPulses(rs, kmalloc, d, p, es).det, |es|)
  {
    hide CountsUpTo, AddPulse;
    if es != [] {
      CountedSoFar(rs, kmalloc, d, p, es[..|es| - 1]);
      var o := AddPulses(rs, kmalloc, d, p, es[..|es| - 1]);
      CountStep(rs, kmalloc, o.det, o.pools, es[|es| - 1], |es| - 1);
    }
  }

  /** No pulses at all make a detector report before pulse max(2, ppbThresh) after a reset. */
  lemma NoEarlyReport(rs: RadarSpec, kmalloc: Kmalloc, d: Detector, p: Pools, es: seq<PulseEvent>)
    requires rs.ppb >= 1 && d.seqs == [] && d.pulses == [] && |es| < ReportAt(rs)
    ensures AddPulses(rs, kmalloc, d, p, es).radar == None
  {
    if es != [] {
      CountedSoFar(rs, kmalloc, d, p, es[..|es| - 1]);
      var o := AddPulses(rs, kmalloc, d, p, es[..|es| - 1]);
      hide AddPulse, CountsUpTo;
      CountStep(rs, kmalloc, o.det, o.pools, es[|es| - 1], |es| - 1);
    }
  }

  // ---------- trains are reported in time ----------

  /** The pools hold, or kmalloc will give, what the first n pulses of the train need. */
  ghost predicate Served(rs: RadarSpec, kmalloc: Kmalloc, p: Pools, start: u64, period: nat, n: nat)
    requires rs.ppb >= 1
  {
    DrawAll(kmalloc, Free(p), Needs(rs, start, period, n)).Some?
  }

  /** What the detector is like after n pulses of the train, if all of them were served or if not. */
  ghost predicate UnderWay(rs: RadarSpec, d: Detector, start: u64, period: nat, n: nat, served: bool)
    requires rs.ppb >= 1
  {
    if Roomy(rs, start, period) then
      if served then TrainState(rs, d, start, period, n) else n >= 1 && CountsUpTo(d, n - 1)
    else
      && n >= 1 && LateState(d, start, TrainTime(start, period, n - 1)) && d.lastTs >= start
      && if served then HoldsTrain(d.pulses, start, period, n) else |d.pulses| < n
  }

  /** The outcome of pulse n of the train. */
  ghost predicate Reports(rs: RadarSpec, o: Outcome, start: u64, period: nat, n: nat, served: bool)
    requires rs.ppb >= 1 && n >= 1
  {
    && (n < ReportAt(rs) ==> o.radar == None && UnderWay(rs, o.det, start, period, n, served))
    && (n == ReportAt(rs) ==>
          o.radar == if served then Some(TrainSequence(rs, start, period, n)) else None)
  }

  lemma TrainBegins(rs: RadarSpec, kmalloc: Kmalloc, d: Detector, p: Pools, e: PulseEvent, period: nat)
    requires ValidSpec(rs) && Ready(rs, d, e.ts) && IsTrain(rs, [e], e.ts, period)
    ensures var o := AddPulse(rs, kmalloc, d, p, e);
            && Reports(rs, o, e.ts, period, 1, o.pools.pulse.errors == p.pulse.errors)
            && o.pools.pseq.errors == p.pseq.errors
  {
    FirstPulse(rs, kmalloc, d, p, e, period);
    TrainStart(e.ts, period);
    hide AddPulse, Roomy, TrainTime, IsTrain;
  }

  /** Pulse 2 of a train that does not wrap around. */
  lemma RoomySecond(rs: RadarSpec, kmalloc: Kmalloc, d: Detector, p: Pools, e: PulseEvent,
                    start: u64, period: nat, served: bool)
    requires ValidSpec(rs) && FitsSpec(rs, period) && Roomy(rs, start, period)
    requires UnderWay(rs, d, start, period, 1, served)
    requires e.ts == TrainTime(start, period, 1) && IsTrain(rs, [e], e.ts, period)
    ensures var o := AddPulse(rs, kmalloc, d, p, e);
            Reports(rs, o, start, period, 2, served && o.pools.pseq.errors == p.pseq.errors)
  {
    hide AddPulse, Roomy, TrainTime, IsTrain, FitsSpec, TrainState, TrainSequence;
    if served {
      SecondPulse(rs, kmalloc, d, p, e, start, period);
    } else {
      CountStep(rs, kmalloc, d, p, e, 0);
    }
  }

  /** A later pulse of a train that does not wrap around. */
  lemma RoomyLater(rs: RadarSpec, kmalloc: Kmalloc, d: Detector, p: Pools, e: PulseEvent,
                   start: u64, period: nat, n: nat, served: bool)
    requires ValidSpec(rs) && FitsSpec(rs, period) && Roomy(rs, start, period)
    requires 2 <= n < ReportAt(rs) && UnderWay(rs, d, start, period, n, served)
    requires e.ts == TrainTime(start, period, n) && IsTrain(rs, [e], e.ts, period)
    ensures var o := AddPulse(rs, kmalloc, d, p, e);
            && Reports(rs, o, start, period, n + 1, served)
            && (served ==> o.pools.pseq.errors == p.pseq.errors)
  {
    hide AddPulse, Roomy, TrainTime, IsTrain, FitsSpec, TrainState, TrainSequence, CountsUpTo;
    if served {
      LaterPulse(rs, kmalloc, d, p, e, start, period, n);
    } else {
      CountStep(rs, kmalloc, d, p, e, n - 1);
    }
  }

  /** A pulse of a train that wraps around. */
  lemma LateLater(rs: RadarSpec, kmalloc: Kmalloc, d: Detector, p: Pools, e: PulseEvent,
                  start: u64, period: nat, n: nat, served: bool)
    requires Late(rs, start, period)
    requires 1 <= n < ReportAt(rs) && UnderWay(rs, d, start, period, n, served)
    requires e.ts == TrainTime(start, period, n) && IsTrain(rs, [e], e.ts, period)
    ensures var o := AddPulse(rs, kmalloc, d, p, e);
            Reports(rs, o, start, period, n + 1, served && Undisturbed(p, o.pools))
  {
    TrainSteps(start, period, n, n);
    hide AddPulse, Roomy, TrainTime, IsTrain, TrainSequence, FitsSpec;
    LateStep(rs, kmalloc, d, p, e, start, period);
    if served && Undisturbed(p, AddPulse(rs, kmalloc, d, p, e).pools) {
      LateProgress(rs, kmalloc, d, p, e, start, period, n);
    }
  }

  /** As long as a train is served, the pools are left with what its needs leave of them: after the first pulse, or
      always if its deadlines wrap around. */
  ghost predicate Tracks(rs: RadarSpec, kmalloc: Kmalloc, p: Pools, o: Outcome, start: u64, period: nat, n: nat)
    requires rs.ppb >= 1
  {
    Served(rs, kmalloc, p, start, period, n) && n >= 1 && (n == 1 || !Roomy(rs, start, period)) ==>
      && Free(o.pools) == DrawAll(kmalloc, Free(p), Needs(rs, start, period, n)).value
      && |o.det.seqs| == if Roomy(rs, start, period) then 0 else Found(rs, period, n - 1)
  }

  lemma NeedsStep(rs: RadarSpec, kmalloc: Kmalloc, p: Pools, start: u64, period: nat, n: nat)
    requires rs.ppb >= 1
    ensures DrawAll(kmalloc, Free(p), Needs(rs, start, period, n + 1)) ==
            match DrawAll(kmalloc, Free(p), Needs(rs, start, period, n))
            case None => None
            case Some(rest) => DrawAll(kmalloc, rest, NeedsAt(rs, start, period, n))
  {
    DrawConcat(kmalloc, Free(p), Needs(rs, start, period, n), NeedsAt(rs, start, period, n));
  }

  lemma FirstServed(rs: RadarSpec, kmalloc: Kmalloc, p: Pools, start: u64, period: nat)
    requires rs.ppb >= 1
    ensures DrawAll(kmalloc, Free(p), Needs(rs, start, period, 1)) == Draw(kmalloc, Free(p), PulseElement)
  {
    NeedsStep(rs, kmalloc, p, start, period, 0);
    DrawOne(kmalloc, Free(p), PulseElement);
    assert [] + [PulseElement] == [PulseElement];
    hide Roomy;
  }

  lemma FirstTracks(rs: RadarSpec, kmalloc: Kmalloc, d: Detector, p: Pools, e: PulseEvent, period: nat)
    requires ValidSpec(rs) && Ready(rs, d, e.ts) && IsTrain(rs, [e], e.ts, period)
    ensures var o := AddPulse(rs, kmalloc, d, p, e);
            && Reports(rs, o, e.ts, period, 1, Served(rs, kmalloc, p, e.ts, period, 1))
            && Tracks(rs, kmalloc, p, o, e.ts, period, 1)
  {
    FirstServed(rs, kmalloc, p, e.ts, period);
    TrainBegins(rs, kmalloc, d, p, e, period);
    FirstDraws(rs, kmalloc, d, p, e, period);
    hide AddPulse, Roomy, Ready, IsTrain, Reports, DrawAll, Needs, Draw;
  }

  /** One more pulse of a train that does not wrap around. */
  lemma RoomyTracks(rs: RadarSpec, kmalloc: Kmalloc, p: Pools, o: Outcome, e: PulseEvent,
                    start: u64, period: nat, n: nat)
    requires ValidSpec(rs) && FitsSpec(rs, period) && Roomy(rs, start, period) && 1 <= n < ReportAt(rs)
    requires UnderWay(rs, o.det, start, period, n, Served(rs, kmalloc, p, start, period, n))
    requires Tracks(rs, kmalloc, p, o, start, period, n)
    requires e.ts == TrainTime(start, period, n) && IsTrain(rs, [e], e.ts, period)
    ensures Reports(rs, AddPulse(rs, kmalloc, o.det, o.pools, e), start, period, n + 1,
                    Served(rs, kmalloc, p, start, period, n + 1))
  {
    hide AddPulse, Roomy, IsTrain, FitsSpec, TrainTime, Reports, Draw, TrainState, Needs;
    var served := Served(rs, kmalloc, p, start, period, n);
    NeedsStep(rs, kmalloc, p, start, period, n);
    if n == 1 {
      RoomySecond(rs, kmalloc, o.det, o.pools, e, start, period, served);
      if served {
        DrawOne(kmalloc, Free(o.pools), SequenceElement);
        SecondDraws(rs, kmalloc, o.det, o.pools, e, start, period);
      }
    } else {
      RoomyLater(rs, kmalloc, o.det, o.pools, e, start, period, n, served);
    }
  }

  /** One more pulse of a train that wraps around. */
  lemma LateTracks(rs: RadarSpec, kmalloc: Kmalloc, p: Pools, o: Outcome, e: PulseEvent,
                   start: u64, period: nat, n: nat)
    requires Late(rs, start, period) && 1 <= n < ReportAt(rs)
    requires UnderWay(rs, o.det, start, period, n, Served(rs, kmalloc, p, start, period, n))
    requires Tracks(rs, kmalloc, p, o, start, period, n)
    requires e.ts == TrainTime(start, period, n) && IsTrain(rs, [e], e.ts, period)
    ensures var o' := AddPulse(rs, kmalloc, o.det, o.pools, e);
            && Reports(rs, o', start, period, n + 1, Served(rs, kmalloc, p, start, period, n + 1))
            && Tracks(rs, kmalloc, p, o', start, period, n + 1)
  {
    hide AddPulse, Roomy, IsTrain, FitsSpec, TrainTime, Reports, DrawAll, NeedsAt, Needs, Found, LateState, HoldsTrain;
    var served := Served(rs, kmalloc, p, start, period, n);
    NeedsStep(rs, kmalloc, p, start, period, n);
    LateLater(rs, kmalloc, o.det, o.pools, e, start, period, n, served);
    if served {
      LateDraws(rs, kmalloc, o.det, o.pools, e, start, period, n);
    }
  }

  /** Completeness: an exactly periodic train is reported at pulse max(2, ppbThresh), with all its pulses counted, and
      at no earlier one, exactly if it is served. */
  lemma {:induction false} TrainIsReportedExactly(rs: RadarSpec, kmalloc: Kmalloc, d: Detector, p: Pools,
                                                  es: seq<PulseEvent>, start: u64, period: nat)
    requires ValidSpec(rs) && FitsSpec(rs, period) && Ready(rs, d, start)
    requires IsTrain(rs, es, start, period) && 1 <= |es| <= ReportAt(rs)
    ensures var o := AddPulses(rs, kmalloc, d, p, es);
            && Reports(rs, o, start, period, |es|, Served(rs, kmalloc, p, start, period, |es|))
            && Tracks(rs, kmalloc, p, o, start, period, |es|)
  {
    hide Duration, FitsSpec, UnderWay, AddPulse, Roomy, Ready, IsTrain, TrainTime, TrainSequence, Served;
    var n := |es| - 1;
    TrainPart(rs, es, start, period, n);
    TrainStart(start, period);
    if n == 0 {
      assert es[..0] == [];
      FirstTracks(rs, kmalloc, d, p, es[0], period);
    } else {
      TrainIsReportedExactly(rs, kmalloc, d, p, es[..n], start, period);
      var o := AddPulses(rs, kmalloc, d, p, es[..n]);
      if Roomy(rs, start, period) {
        RoomyTracks(rs, kmalloc, p, o, es[n], start, period, n);
      } else {
        LateTracks(rs, kmalloc, p, o, es[n], start, period, n);
      }
    }
  }

  /** A train that does not wrap around needs one free or new queue element and one free or new sequence. */
  lemma RoomyServed(rs: RadarSpec, kmalloc: Kmalloc, p: Pools, start: u64, period: nat, n: nat)
    requires rs.ppb >= 1 && Roomy(rs, start, period) && n >= 1
    ensures Served(rs, kmalloc, p, start, period, n) <==>
            && (p.pulse.free > 0 || kmalloc(p.calls))
            && (n >= 2 ==> p.pseq.free > 0 || kmalloc(if p.pulse.free > 0 then p.calls else p.calls + 1))
    decreases n
  {
    NeedsStep(rs, kmalloc, p, start, period, n - 1);
    if n == 1 {
      FirstServed(rs, kmalloc, p, start, period);
    } else if n == 2 {
      FirstServed(rs, kmalloc, p, start, period);
      var rest := Draw(kmalloc, Free(p), PulseElement);
      if rest.Some? {
        DrawOne(kmalloc, rest.value, SequenceElement);
      }
    } else {
      RoomyServed(rs, kmalloc, p, start, period, n - 1);
      hide Needs, Roomy;
    }
  }

  // ---------- with enough memory ----------

  ghost predicate AllSucceed(kmalloc: Kmalloc) {
    forall k :: kmalloc(k)
  }

  lemma {:induction false} AllTaken(kmalloc: Kmalloc, calls: nat, c: Counters, n: nat)
    requires AllSucceed(kmalloc)
    ensures TakeMany(kmalloc, calls, c, n).2.errors == c.errors
    decreases n
  {
    if n > 0 {
      var (ok, calls', c') := Take(kmalloc, calls, c);
      AllTaken(kmalloc, calls', c', n - 1);
    }
  }

  lemma StepSucceeds(rs: RadarSpec, kmalloc: Kmalloc, d: Detector, p: Pools, e: PulseEvent)
    requires rs.ppb >= 1 && AllSucceed(kmalloc)
    ensures Undisturbed(p, AddPulse(rs, kmalloc, d, p, e).pools)
  {
    hide Candidates, Extend, MaxContinued, TakeMany, Accepts, IsRadar, Enqueued;
    if Accepts(rs, d, e) {
      var m := MaxContinued(rs, d.seqs, e.ts);
      AllTaken(kmalloc, p.calls, Give(p.pseq, |d.seqs| - |Extend(rs, d.seqs, e.ts)|),
               |Candidates(rs, d.pulses, 0, e.ts, m)|);
    }
  }

  lemma {:induction false} AllDrawn(kmalloc: Kmalloc, k: Stock, needs: seq<Need>)
    requires AllSucceed(kmalloc)
    ensures DrawAll(kmalloc, k, needs).Some?
    decreases needs
  {
    if needs != [] {
      AllDrawn(kmalloc, Draw(kmalloc, k, needs[0]).value, needs[1..]);
    }
  }

  /** With enough memory every train is reported. */
  lemma TrainIsReported(rs: RadarSpec, kmalloc: Kmalloc, d: Detector, p: Pools,
                        es: seq<PulseEvent>, start: u64, period: nat)
    requires ValidSpec(rs) && AllSucceed(kmalloc) && FitsSpec(rs, period) && Ready(rs, d, start)
    requires IsTrain(rs, es, start, period) && 1 <= |es| <= ReportAt(rs)
    ensures Reports(rs, AddPulses(rs, kmalloc, d, p, es), start, period, |es|, true)
  {
    TrainIsReportedExactly(rs, kmalloc, d, p, es, start, period);
    AllDrawn(kmalloc, Free(p), Needs(rs, start, period, |es|));
    hide AddPulses, Reports, Roomy, FitsSpec, Ready, IsTrain;
  }
}
