/** Pulse trains among other pulses: strays may start sequences of their own, and are counted as misses. */
module DfsNoisyTrains {
  import opened Options
  import opened MachineWords
  import opened DfsMultiple
  import opened DfsModel
  import opened DfsTrains
  import opened DfsLateTrains
  import opened DfsCompleteness

  /** Pulses of acceptable shape, a tolerance apart. */
  ghost predicate Acceptable(rs: RadarSpec, es: seq<PulseEvent>) {
    && (forall i :: 0 <= i < |es| ==> rs.widthMin <= es[i].width <= rs.widthMax && (rs.chirp ==> es[i].chirp))
    && forall i, j :: 0 <= i < j < |es| ==> es[i].ts + rs.tolerance <= es[j].ts
  }

  /** Pulses of which those at the places `at`, the first and the last one among them, form a train. The others are
      strays. */
  ghost predicate NoisyTrain(rs: RadarSpec, es: seq<PulseEvent>, at: seq<nat>, start: u64, period: nat) {
    && Acceptable(rs, es)
    && at != [] && at[0] == 0 && at[|at| - 1] == |es| - 1
    && (forall j, k :: 0 <= j < k < |at| ==> at[j] < at[k] < |es|)
    && forall j :: 0 <= j < |at| ==> at[j] < |es| && es[at[j]].ts == TrainTime(start, period, j)
  }

  /** Nothing has been reported so far. */
  ghost predicate Silent(rs: RadarSpec, kmalloc: Kmalloc, d: Detector, p: Pools, es: seq<PulseEvent>)
    requires rs.ppb >= 1
  {
    es != [] ==>
      Silent(rs, kmalloc, d, p, es[..|es| - 1]) && AddPulses(rs, kmalloc, d, p, es).radar == None
  }

  /** All these pulses are queued, newest first. */
  ghost predicate AllQueued(q: seq<u64>, es: seq<PulseEvent>) {
    |q| == |es| && forall i :: 0 <= i < |q| ==> q[i] == es[|es| - 1 - i].ts
  }

  // ---------- what the queue and the list hold ----------

  /** A queue that is not full and not too old keeps all its pulses. */
  lemma EnqueuedWhole(rs: RadarSpec, q: seq<u64>, ts: u64)
    requires |q| + 1 < 2 * rs.ppb && forall j :: 0 <= j < |q| ==> 0 <= ts - q[j] <= WindowSize(rs)
    ensures Enqueued(rs, q, ts) == [ts] + q
  {
    hide WindowSize;
  }

  /** A queued pulse at a distance in the PRI range, with only younger ones closer, leads to a listed sequence unless
      that is not longer than wanted. */
  lemma {:induction false} CandidateListed(rs: RadarSpec, q: seq<u64>, i: nat, base: nat, ts: u64, minCount: nat)
    requires rs.ppb >= 1 && i <= base < |q| && rs.priMin <= Wrap32(ts - q[base])
    requires forall j :: i <= j <= base ==> Wrap32(ts - q[j]) <= rs.priMax
    requires Candidate(rs, q, base, ts).count > minCount
    ensures Candidate(rs, q, base, ts) in Candidates(rs, q, i, ts, minCount)
    decreases base - i
  {
    hide Candidate, Wrap32;
    if i < base {
      CandidateListed(rs, q, i + 1, base, ts, minCount);
    }
  }

  /** The largest count is that of a sequence continued. */
  lemma {:induction false} MaxContinuedIsListed(rs: RadarSpec, ss: seq<Sequence>, ts: u64)
    ensures MaxContinued(rs, ss, ts) > 0 ==> exists s :: s in Extend(rs, ss, ts) && s.count == MaxContinued(rs, ss, ts)
  {
    hide Continues;
    if ss != [] {
      var s, front := ss[|ss| - 1], ss[..|ss| - 1];
      MaxContinuedIsListed(rs, front, ts);
      if ts <= s.deadline {
        assert Touch(rs, s, ts) in Extend(rs, ss, ts);
      }
    }
  }

  // ---------- the search finds the whole train ----------

  /** Where train pulse j is in the queue of m pulses. */
  function Place(m: nat, at: seq<nat>, j: nat): int
    requires j < |at|
  {
    m - 1 - at[j]
  }

  /** The queue holds the train pulses 0..n at their places, ordered by age, none older than the first. */
  ghost predicate HasTrain(q: seq<u64>, at: seq<nat>, n: nat, start: u64, period: nat) {
    && n <= |at|
    && (forall j :: 0 <= j < n ==> 0 <= Place(|q|, at, j) < |q| && q[Place(|q|, at, j)] == TrainTime(start, period, j))
    && (forall j, k :: 0 <= j < k < n ==> Place(|q|, at, j) > Place(|q|, at, k))
    && forall i :: 0 <= i < |q| ==> q[i] >= start
  }

  /** The search from place k on counts at least the train pulses 0..j, all of which lie there. */
  lemma {:induction false} CountsTrain(
      q: seq<u64>, at: seq<nat>, n: nat, j: nat, k: nat, start: u64, period: nat, ts: u64, minValid: u64,
      tolerance: nat, acc: Lookback, pending: nat)
    requires HasTrain(q, at, n, start, period) && j <= n && k <= |q| && (j > 0 ==> k <= Place(|q|, at, j - 1))
    requires minValid <= start && period > 0
    requires ts == TrainTime(start, period, n + 1) && (n + 1) * period < 0x1_0000_0000
    ensures LookBack(q[k..], ts, period, minValid, tolerance, acc, pending).count >= acc.count + j
    decreases |q| - k
  {
    hide GetMultiple, TrainTime, Wrap32;
    LookBackBounds(q[k..], ts, period, minValid, tolerance, acc, pending);
    if j > 0 {
      assert q[k..][0] == q[k] && q[k..][1..] == q[k + 1..];
      var acc' := Lookback(acc.count + 1, acc.falses + pending, q[k]);
      if k == Place(|q|, at, j - 1) {
        TrainPulseMatches(start, period, j - 1, n + 1, tolerance);
        CountsTrain(q, at, n, j - 1, k + 1, start, period, ts, minValid, tolerance, acc', 0);
      } else if GetMultiple(Wrap32(ts - q[k]), period, tolerance) > 0 {
        CountsTrain(q, at, n, j, k + 1, start, period, ts, minValid, tolerance, acc', 0);
      } else {
        CountsTrain(q, at, n, j, k + 1, start, period, ts, minValid, tolerance, acc, pending + 1);
      }
    }
  }

  lemma TrainPulseMatches(start: u64, period: nat, j: nat, n: nat, tolerance: nat)
    requires j < n && period > 0 && n * period < 0x1_0000_0000
    ensures GetMultiple(Wrap32(TrainTime(start, period, n) - TrainTime(start, period, j)), period, tolerance) > 0
  {
    hide GetMultiple, Wrap32;
    TimeBetween(start, period, j, n);
    Product(n - j, n, period, period);
    ShortDistance((n - j) * period);
    MultipleMatches(n - j, period, tolerance);
  }

  /** The last pulse of the train forms, with the one before it, a sequence of at least the whole train. */
  lemma TrainCandidate(rs: RadarSpec, q: seq<u64>, at: seq<nat>, n: nat, start: u64, period: nat, ts: u64)
    requires ValidSpec(rs) && FitsSpec(rs, period) && HasTrain(q, at, n + 1, start, period)
    requires ts == TrainTime(start, period, n + 1) && (n + 1) * period < 0x1_0000_0000
    requires Duration(rs, period) <= ts && (n > 0 ==> ts - Duration(rs, period) <= start)
    ensures var base := Place(|q|, at, n);
            Wrap32(ts - q[base]) == period && Candidate(rs, q, base, ts).count >= n + 2
  {
    var base, dur := Place(|q|, at, n), Duration(rs, period);
    TimeBetween(start, period, n, n + 1);
    hide LookBack, TrainTime, Duration;
    assert ts - q[base] == 1 * period;
    ShortDistance(period);
    assert PriToUse(rs, period) == period && period > 0;
    var acc := Lookback(2, 0, q[base]);
    LookBackBounds(q[base + 1..], ts, period, Wrap64(ts - dur), rs.tolerance, acc, 0);
    if n > 0 {
      assert HasTrain(q, at, n, start, period);
      CountsTrain(q, at, n, n, base + 1, start, period, ts, Wrap64(ts - dur), rs.tolerance, acc, 0);
    }
  }

  // ---------- a train among strays is reported ----------

  /** A pulse is accepted and queued unless it is reported. */
  lemma NextQueued(rs: RadarSpec, kmalloc: Kmalloc, d: Detector, p: Pools, front: seq<PulseEvent>, e: PulseEvent)
    requires ValidSpec(rs) && AllSucceed(kmalloc) && Acceptable(rs, front + [e]) && |front| + 1 < 2 * rs.ppb
    requires if front == [] then Ready(rs, d, e.ts)
             else d.lastTs == front[|front| - 1].ts && e.ts - front[0].ts <= WindowSize(rs)
    requires AllQueued(d.pulses, front) && AddPulse(rs, kmalloc, d, p, e).radar == None
    ensures var d' := AddPulse(rs, kmalloc, d, p, e).det;
            AllQueued(d'.pulses, front + [e]) && d'.lastTs == e.ts
  {
    hide AddPulse, WindowSize, Enqueued, ListedAfter, CheckDetection, Candidates, MaxContinued, Accepts, Ready;
    NextAccepted(rs, d, front, e);
    StepSucceeds(rs, kmalloc, d, p, e);
    StepShape(rs, kmalloc, d, p, e);
    var es := front + [e];
    assert forall i :: 0 <= i < |front| ==> es[i] == front[i];
    assert es[|front|] == e;
    EnqueuedWhole(rs, d.pulses, e.ts);
  }

  /** A later pulse is accepted. */
  lemma NextAccepted(rs: RadarSpec, d: Detector, front: seq<PulseEvent>, e: PulseEvent)
    requires ValidSpec(rs) && Acceptable(rs, front + [e])
    requires if front == [] then Ready(rs, d, e.ts) else d.lastTs == front[|front| - 1].ts
    ensures Accepts(rs, d, e)
  {
    var es, n := front + [e], |front|;
    assert es[n] == e && (n > 0 ==> es[n - 1] == front[n - 1]);
  }

  /** As long as nothing is reported, every pulse is accepted and queued. */
  lemma {:induction false} SilentQueue(rs: RadarSpec, kmalloc: Kmalloc, d: Detector, p: Pools, es: seq<PulseEvent>)
    requires ValidSpec(rs) && AllSucceed(kmalloc) && Acceptable(rs, es) && 1 <= |es| < 2 * rs.ppb
    requires Ready(rs, d, es[0].ts) && es[|es| - 1].ts - es[0].ts <= WindowSize(rs)
    requires Silent(rs, kmalloc, d, p, es)
    ensures var o := AddPulses(rs, kmalloc, d, p, es);
            AllQueued(o.det.pulses, es) && o.det.lastTs == es[|es| - 1].ts && CountsUpTo(o.det, |es|)
  {
    CountedSoFar(rs, kmalloc, d, p, es);
    hide AddPulse, WindowSize, CountsUpTo;
    var n := |es| - 1;
    var front := es[..n];
    assert front + [es[n]] == es;
    var o := AddPulses(rs, kmalloc, d, p, front);
    if n > 0 {
      SilentQueue(rs, kmalloc, d, p, front);
    }
    hide AllQueued;
    assert AllQueued([], []);
    NextQueued(rs, kmalloc, o.det, o.pools, front, es[n]);
  }

  /** The queue before the last pulse holds the train up to that pulse. */
  lemma QueueHasTrain(rs: RadarSpec, q: seq<u64>, es: seq<PulseEvent>, at: seq<nat>, start: u64, period: nat)
    requires NoisyTrain(rs, es, at, start, period) && |at| >= 2 && AllQueued(q, es[..|es| - 1])
    ensures HasTrain(q, at, |at| - 1, start, period)
    ensures forall j :: 0 <= j <= Place(|q|, at, |at| - 2) ==>
              0 <= es[|es| - 1].ts - q[j] <= es[|es| - 1].ts - q[Place(|q|, at, |at| - 2)]
  {
    hide TrainTime;
    var n := |es| - 1;
    assert forall j :: 0 <= j < |at| - 1 ==> at[j] < n;
    assert forall i :: 0 <= i < |q| ==> q[i] == es[n - 1 - i].ts;
    assert es[0].ts == TrainTime(start, period, 0);
    TrainStart(start, period);
  }

  /** A train is over before the time window is. */
  lemma TrainSpan(rs: RadarSpec, start: u64, period: nat, n: nat)
    requires ValidSpec(rs) && FitsSpec(rs, period) && n + 1 == ReportAt(rs)
    ensures TrainTime(start, period, n) - start <= WindowSize(rs) && n * period < 0x1_0000_0000
    ensures n >= 2 ==> TrainTime(start, period, n) - start <= Duration(rs, period)
  {
    Product(n, rs.ppb, period, rs.priMax);
    Product(1, rs.numPri, rs.priMax * rs.ppb, rs.priMax * rs.ppb);
    Product(n, 0x100, period, 0x1_0000);
    if n >= 2 {
      Product(n, rs.ppb - 1, period, period);
    }
  }

  /** Completeness among strays: a train whose pulses reach the reporting threshold is reported, at its last pulse or
      before, if the strays are at most its counted pulses times the number of PRIs. The queue must have room for the
      strays, and the last pulse must come at least the length of a full train after time 0. */
  lemma NoisyTrainIsReported(rs: RadarSpec, kmalloc: Kmalloc, d: Detector, p: Pools, es: seq<PulseEvent>, at: seq<nat>,
                             start: u64, period: nat)
    requires ValidSpec(rs) && AllSucceed(kmalloc) && FitsSpec(rs, period) && Ready(rs, d, start)
    requires NoisyTrain(rs, es, at, start, period) && |at| == ReportAt(rs) && |es| <= 2 * rs.ppb
    requires |es| - |at| <= |at| * rs.numPri
    requires Duration(rs, period) <= es[|es| - 1].ts
    ensures exists n :: 1 <= n <= |es| && AddPulses(rs, kmalloc, d, p, es[..n]).radar.Some?
  {
    hide Duration, AddPulse, FitsSpec, WindowSize, TrainTime, Ready, Candidate, Candidates;
    var n := |es| - 1;
    var front, ts := es[..n], es[n].ts;
    if Silent(rs, kmalloc, d, p, front) {
      LastTrainPulse(rs, kmalloc, d, p, es, at, start, period);
      assert es[..|es|] == es;
    } else {
      var k := FirstReport(rs, kmalloc, d, p, front);
      assert es[..k] == front[..k];
    }
  }

  /** The pulse that breaks the silence. */
  lemma {:induction false} FirstReport(rs: RadarSpec, kmalloc: Kmalloc, d: Detector, p: Pools, es: seq<PulseEvent>)
    returns (k: nat)
    requires rs.ppb >= 1 && !Silent(rs, kmalloc, d, p, es)
    ensures 1 <= k <= |es| && AddPulses(rs, kmalloc, d, p, es[..k]).radar.Some?
  {
    hide AddPulses;
    k := |es|;
    assert es[..k] == es;
    if AddPulses(rs, kmalloc, d, p, es).radar == None {
      k := FirstReport(rs, kmalloc, d, p, es[..|es| - 1]);
      assert es[..|es| - 1][..k] == es[..k];
    }
  }

  /** If nothing was reported before, the last pulse of the train is. */
  lemma LastTrainPulse(rs: RadarSpec, kmalloc: Kmalloc, d: Detector, p: Pools, es: seq<PulseEvent>, at: seq<nat>,
                       start: u64, period: nat)
    requires ValidSpec(rs) && AllSucceed(kmalloc) && FitsSpec(rs, period) && Ready(rs, d, start)
    requires NoisyTrain(rs, es, at, start, period) && |at| == ReportAt(rs) && |es| <= 2 * rs.ppb
    requires |es| - |at| <= |at| * rs.numPri
    requires Duration(rs, period) <= es[|es| - 1].ts
    requires Silent(rs, kmalloc, d, p, es[..|es| - 1])
    ensures AddPulses(rs, kmalloc, d, p, es).radar.Some?
  {
    hide Duration, AddPulse, FitsSpec, WindowSize, TrainTime, Ready, ListedAfter, Silent, CountsUpTo, HasTrain, Accepts;
    var n := |es| - 1;
    var front, e, m := es[..n], es[n], |at| - 1;
    assert at[0] < at[m] && front[0] == es[0] && front + [e] == es;
    var o := AddPulses(rs, kmalloc, d, p, front);
    TrainSpan(rs, start, period, m);
    TrainStart(start, period);
    SilentQueue(rs, kmalloc, d, p, front);
    QueueHasTrain(rs, o.det.pulses, es, at, start, period);
    WholeTrainListed(rs, o.det, at, m, start, period, e.ts);
    NextAccepted(rs, o.det, front, e);
    LastReports(rs, kmalloc, o.det, o.pools, e, n);
  }

  /** A listed sequence of enough pulses out of n + 1 is reported. */
  lemma LastReports(rs: RadarSpec, kmalloc: Kmalloc, d: Detector, p: Pools, e: PulseEvent, n: nat)
    requires ValidSpec(rs) && AllSucceed(kmalloc) && Accepts(rs, d, e) && CountsUpTo(d, n)
    requires n + 1 - ReportAt(rs) <= ReportAt(rs) * rs.numPri
    requires exists s :: s in ListedAfter(rs, d, e.ts) && s.count >= ReportAt(rs)
    ensures AddPulse(rs, kmalloc, d, p, e).radar.Some?
  {
    hide AddPulse, ListedAfter, CountsUpTo;
    var s :| s in ListedAfter(rs, d, e.ts) && s.count >= ReportAt(rs);
    ListedCounts(rs, d, e.ts, n);
    Product(ReportAt(rs), s.count, rs.numPri, rs.numPri);
    StepSucceeds(rs, kmalloc, d, p, e);
    ReportedExactly(rs, kmalloc, d, p, e);
  }

  /** All that is listed after one more pulse has counted each pulse at most once. */
  lemma ListedCounts(rs: RadarSpec, d: Detector, ts: u64, m: nat)
    requires rs.ppb >= 1 && CountsUpTo(d, m)
    ensures forall s | s in ListedAfter(rs, d, ts) :: s.count + s.falses <= m + 1
  {
    hide Candidates, Extend, MaxContinued;
    CandidateCounts(rs, d.pulses, 0, ts, MaxContinued(rs, d.seqs, ts));
    ExtendedCounts(rs, d.seqs, ts, m);
  }

  /** The last pulse of a train of m + 1 lists a sequence of at least as many pulses, or continues one. */
  lemma WholeTrainListed(rs: RadarSpec, d: Detector, at: seq<nat>, m: nat, start: u64, period: nat, ts: u64)
    requires ValidSpec(rs) && FitsSpec(rs, period) && m >= 1 && HasTrain(d.pulses, at, m, start, period)
    requires ts == TrainTime(start, period, m) && m * period < 0x1_0000_0000
    requires Duration(rs, period) <= ts && (m > 1 ==> ts - Duration(rs, period) <= start)
    requires var base := Place(|d.pulses|, at, m - 1);
             forall j :: 0 <= j <= base ==> 0 <= ts - d.pulses[j] <= ts - d.pulses[base]
    ensures exists s :: s in ListedAfter(rs, d, ts) && s.count >= m + 1
  {
    var q, base, minCount := d.pulses, Place(|d.pulses|, at, m - 1), MaxContinued(rs, d.seqs, ts);
    TimeBetween(start, period, m - 1, m);
    TrainCandidate(rs, q, at, m - 1, start, period, ts);
    hide Duration, TrainTime, Candidate, Candidates, Extend, MaxContinued;
    forall j | 0 <= j <= base ensures Wrap32(ts - q[j]) <= rs.priMax {
      ShortDistance(ts - q[j]);
    }
    if Candidate(rs, q, base, ts).count > minCount {
      CandidateListed(rs, q, 0, base, ts, minCount);
      assert Candidate(rs, q, base, ts) in ListedAfter(rs, d, ts);
    } else {
      MaxContinuedIsListed(rs, d.seqs, ts);
      var s :| s in Extend(rs, d.seqs, ts) && s.count == minCount;
      assert s in ListedAfter(rs, d, ts);
    }
  }

  // ---------- a train that comes too early ----------

  const EARLY_SPEC := RadarSpec(0, 0, 1, 1000, 4016, 1, 5, 5, PRI_TOLERANCE, false)

  function Early(ts: u64): PulseEvent { PulseEvent(ts, 5500, 1, false) }

  /** Five pulses at a period of 3000 microseconds, and a stray behind the first of them. */
  const EARLY_TRAIN: seq<PulseEvent> :=
    [Early(16), Early(1016), Early(3016), Early(6016), Early(9016), Early(12016)]

  /** What a detector has seen, but for the logs. */
  predicate Stands(d: Detector, lastTs: u64, pulses: seq<u64>, ss: seq<Sequence>) {
    d.lastTs == lastTs && d.pulses == pulses && d.seqs == ss
  }

  /** One silent pulse. */
  lemma SilentStep(rs: RadarSpec, kmalloc: Kmalloc, d: Detector, p: Pools, e: PulseEvent, ss: seq<Sequence>)
    requires rs.ppb >= 1 && AllSucceed(kmalloc) && Accepts(rs, d, e) && ListedAfter(rs, d, e.ts) == ss
    requires forall s | s in ss :: s.count < rs.ppbThresh
    requires |d.pulses| + 1 < 2 * rs.ppb
    requires forall j :: 0 <= j < |d.pulses| ==> 0 <= e.ts - d.pulses[j] <= WindowSize(rs)
    ensures var o := AddPulse(rs, kmalloc, d, p, e);
            o.radar == None && Stands(o.det, e.ts, [e.ts] + d.pulses, ss)
  {
    hide AddPulse, ListedAfter, Enqueued, WindowSize, Accepts;
    StepSucceeds(rs, kmalloc, d, p, e);
    StepShape(rs, kmalloc, d, p, e);
    EnqueuedWhole(rs, d.pulses, e.ts);
  }

  function ListedBy(pulses: seq<u64>, ss: seq<Sequence>, ts: u64): seq<Sequence> {
    Reversed(Candidates(EARLY_SPEC, pulses, 0, ts, MaxContinued(EARLY_SPEC, ss, ts))) + Extend(EARLY_SPEC, ss, ts)
  }

  /** Silent so far, with this state. */
  ghost predicate SilentAt(kmalloc: Kmalloc, p: Pools, n: nat, lastTs: u64, pulses: seq<u64>, ss: seq<Sequence>)
    requires n <= |EARLY_TRAIN|
  {
    var o := AddPulses(EARLY_SPEC, kmalloc, NEW_DETECTOR, p, EARLY_TRAIN[..n]);
    o.radar == None && Stands(o.det, lastTs, pulses, ss)
  }

  lemma EarlyStep(kmalloc: Kmalloc, p: Pools, n: nat, lastTs: u64, pulses: seq<u64>, before: seq<Sequence>,
                  ts: u64, queue: seq<u64>, ss: seq<Sequence>)
    requires AllSucceed(kmalloc) && n < |EARLY_TRAIN| && EARLY_TRAIN[n] == Early(ts)
    requires SilentAt(kmalloc, p, n, lastTs, pulses, before) && |pulses| <= 5 && queue == [ts] + pulses
    requires lastTs + 16 <= ts <= 20000 && forall j :: 0 <= j < |pulses| ==> pulses[j] <= ts
    requires ListedBy(pulses, before, ts) == ss && forall s | s in ss :: s.count < 5
    ensures SilentAt(kmalloc, p, n + 1, ts, queue, ss)
  {
    hide AddPulse, Candidates, MaxContinued, Extend;
    var o := AddPulses(EARLY_SPEC, kmalloc, NEW_DETECTOR, p, EARLY_TRAIN[..n]);
    var now := EARLY_TRAIN[..n + 1];
    assert now[..n] == EARLY_TRAIN[..n] && now[n] == Early(ts);
    hide AddPulses, Reversed;
    SilentStep(EARLY_SPEC, kmalloc, o.det, o.pools, Early(ts), ss);
  }

  /** As long as the search window begins in the future, a new sequence has two pulses. */
  lemma EarlyCandidate(pulses: seq<u64>, i: nat, ts: u64)
    requires ts <= 20000 && i < |pulses| && 1000 <= ts - pulses[i] <= 4016 && ts < 4 * (ts - pulses[i]) + 32
    requires forall j :: 0 <= j < |pulses| ==> pulses[j] < ts
    ensures var pri := ts - pulses[i];
            var dur := 4 * pri + 32;
            Candidate(EARLY_SPEC, pulses, i, ts) == Sequence(pri, dur, 2, 0, pulses[i], ts, pulses[i] + dur)
  {
    var pri := ts - pulses[i];
    assert Wrap32(pri) == pri && PriToUse(EARLY_SPEC, pri) == pri && Duration(EARLY_SPEC, pri) == 4 * pri + 32;
    assert Wrap64(ts - Duration(EARLY_SPEC, pri)) > 20000;
    assert pulses[i + 1..] != [] ==> pulses[i + 1..][0] == pulses[i + 1];
    hide Wrap32, PriToUse, Duration;
  }

  /** Then no new one is longer than one that goes on. */
  lemma {:induction false} NoneLonger(pulses: seq<u64>, i: nat, ts: u64, minCount: nat)
    requires ts <= 20000 && i <= |pulses| && minCount >= 2
    requires forall j :: 0 <= j < |pulses| ==> pulses[j] < ts
    requires forall j :: 0 <= j < |pulses| && 1000 <= ts - pulses[j] <= 4016 ==> ts < 4 * (ts - pulses[j]) + 32
    ensures Candidates(EARLY_SPEC, pulses, i, ts, minCount) == []
    decreases |pulses| - i
  {
    hide Candidate;
    if i < |pulses| {
      ShortDistance(ts - pulses[i]);
      NoneLonger(pulses, i + 1, ts, minCount);
      if 1000 <= ts - pulses[i] <= 4016 {
        EarlyCandidate(pulses, i, ts);
      }
    }
  }

  lemma ListContinues(pulses: seq<u64>, s: Sequence, ts: u64)
    requires s.lastTs < ts <= s.deadline && ts <= 20000 && s.count >= 1 && s.pri > 0
    requires ts - s.lastTs == s.pri || ts - s.lastTs == 2 * s.pri
    requires forall j :: 0 <= j < |pulses| ==> pulses[j] < ts
    requires forall j :: 0 <= j < |pulses| && 1000 <= ts - pulses[j] <= 4016 ==> ts < 4 * (ts - pulses[j]) + 32
    ensures ListedBy(pulses, [s], ts) == [s.(lastTs := ts, count := s.count + 1)]
  {
    hide Candidates, Extend, MaxContinued, GetMultiple;
    if ts - s.lastTs == s.pri {
      MultipleMatches(1, s.pri, PRI_TOLERANCE);
    } else {
      MultipleMatches(2, s.pri, PRI_TOLERANCE);
    }
    OneListed(EARLY_SPEC, s, ts, ts - s.lastTs);
    NoneLonger(pulses, 0, ts, s.count + 1);
  }

  lemma ListStarts(pulses: seq<u64>, ss: seq<Sequence>, ts: u64)
    requires ts <= 20000 && pulses != [] && 1000 <= ts - pulses[0] <= 4016 && ts < 4 * (ts - pulses[0]) + 32
    requires forall j :: 0 <= j < |pulses| ==> pulses[j] < ts
    requires AllBefore(ss, ts) && (|pulses| > 1 ==> ts - pulses[1] > 4016)
    ensures var pri := ts - pulses[0];
            var dur := 4 * pri + 32;
            ListedBy(pulses, ss, ts) == [Sequence(pri, dur, 2, 0, pulses[0], ts, pulses[0] + dur)]
  {
    hide Candidate, Extend, MaxContinued;
    AllExpire(EARLY_SPEC, ss, ts);
    EarlyCandidate(pulses, 0, ts);
    ShortDistance(ts - pulses[0]);
    assert Candidates(EARLY_SPEC, pulses, 1, ts, 0) == [] by {
      if |pulses| > 1 {
        ShortDistance(ts - pulses[1]);
      }
    }
    var c := Candidate(EARLY_SPEC, pulses, 0, ts);
    assert Candidates(EARLY_SPEC, pulses, 0, ts, 0) == [c] + [];
    assert Reversed([c]) + [] == [c];
  }

  lemma EarlyPulses(kmalloc: Kmalloc, p: Pools)
    requires AllSucceed(kmalloc)
    ensures forall n :: 0 <= n <= 6 ==> AddPulses(EARLY_SPEC, kmalloc, NEW_DETECTOR, p, EARLY_TRAIN[..n]).radar == None
  {
    NoPulses(kmalloc, p);
    hide AddPulse, ListedBy, Stands, AddPulses, AllSucceed;
    var s := Sequence(1000, 4032, 2, 0, 16, 1016, 4048);
    var t := Sequence(3000, 12032, 2, 0, 3016, 6016, 15048);
    var s', t', t'' := s.(lastTs := 3016, count := 3), t.(lastTs := 9016, count := 3), t.(lastTs := 12016, count := 4);
    var q1, q2, q3: seq<u64> := [16], [1016, 16], [3016, 1016, 16];
    var q4, q5: seq<u64> := [6016, 3016, 1016, 16], [9016, 6016, 3016, 1016, 16];
    EarlyStep(kmalloc, p, 0, 0, [], [], 16, q1, []);
    ListStarts(q1, [], 1016);
    EarlyStep(kmalloc, p, 1, 16, q1, [], 1016, q2, [s]);
    ListContinues(q2, s, 3016);
    EarlyStep(kmalloc, p, 2, 1016, q2, [s], 3016, q3, [s']);
    ListStarts(q3, [s'], 6016);
    EarlyStep(kmalloc, p, 3, 3016, q3, [s'], 6016, q4, [t]);
    ListContinues(q4, t, 9016);
    EarlyStep(kmalloc, p, 4, 6016, q4, [t], 9016, q5, [t']);
    ListContinues(q5, t', 12016);
    EarlyStep(kmalloc, p, 5, 9016, q5, [t'], 12016, [12016] + q5, [t'']);
  }

  lemma NoPulses(kmalloc: Kmalloc, p: Pools)
    ensures SilentAt(kmalloc, p, 0, 0, [], []) && ListedBy([], [], 16) == []
  {
  }

  /** Without a full train's length before its last pulse a train can be missed: here 16 microseconds are lacking. The
      stray keeps the second pulse from starting the sequence of the train, and later ones do not find the first. */
  lemma EarlyTrainIsMissed(kmalloc: Kmalloc, p: Pools)
    requires AllSucceed(kmalloc)
    ensures ValidSpec(EARLY_SPEC) && FitsSpec(EARLY_SPEC, 3000) && Ready(EARLY_SPEC, NEW_DETECTOR, 16)
    ensures NoisyTrain(EARLY_SPEC, EARLY_TRAIN, [0, 2, 3, 4, 5], 16, 3000) && ReportAt(EARLY_SPEC) == 5
    ensures Duration(EARLY_SPEC, 3000) == EARLY_TRAIN[5].ts + 16
    ensures forall n :: 0 <= n <= 6 ==> AddPulses(EARLY_SPEC, kmalloc, NEW_DETECTOR, p, EARLY_TRAIN[..n]).radar == None
  {
    EarlyPulses(kmalloc, p);
    hide AddPulses;
  }
}
