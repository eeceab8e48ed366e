/** Periodic pulse trains so late that their deadlines wrap around: every sequence expires at once and is found again,
    complete, with the next pulse. */
module DfsLateTrains {
  import opened Options
  import opened MachineWords
  import opened DfsMultiple
  import opened DfsModel
  import opened DfsTrains

  /** A period that a detector looks for, in a train whose window wraps around. */
  ghost predicate Late(rs: RadarSpec, start: u64, period: nat) {
    ValidSpec(rs) && FitsSpec(rs, period) && !Roomy(rs, start, period)
  }

  /** A queue that holds the first n pulses of a train, newest first. */
  ghost predicate HoldsTrain(q: seq<u64>, start: nat, period: nat, n: nat) {
    |q| == n && forall i :: 0 <= i < n ==> q[i] == TrainTime(start, period, n - 1 - i)
  }

  ghost predicate AllBefore(ss: seq<Sequence>, ts: nat) { forall s | s in ss :: s.deadline < ts }

  ghost predicate AllWithin(q: seq<u64>, start: nat, last: int) {
    forall j :: 0 <= j < |q| ==> start <= q[j] <= last
  }

  /** In a late train only pulses of the train are queued, and the deadlines of all sequences have wrapped around. */
  ghost predicate LateState(d: Detector, start: u64, last: int) {
    d.lastTs == last && AllWithin(d.pulses, start, last) && AllBefore(d.seqs, start)
  }

  lemma {:induction false} AllExpire(rs: RadarSpec, ss: seq<Sequence>, ts: u64)
    requires AllBefore(ss, ts)
    ensures Extend(rs, ss, ts) == [] && MaxContinued(rs, ss, ts) == 0
  {
    if ss != [] {
      AllExpire(rs, ss[..|ss| - 1], ts);
    }
  }

  // ---------- times in a late train ----------

  lemma LateStart(rs: RadarSpec, start: u64, period: nat)
    requires Late(rs, start, period)
    ensures 16 <= period < 0x1_0000 && start > 0xFFFF_FFFF_0000_0000 && period <= rs.priMax
    ensures Duration(rs, period) < 0x100_0000
  {
    Product(rs.ppb - 1, 0xFE, period, 0xFFFF);
  }

  lemma Product(n: nat, m: nat, x: nat, y: nat)
    ensures n <= m && x <= y ==> n * x <= m * y
  {
    if n <= m && x <= y {
      assert n * x <= m * x <= m * y;
    }
  }

  /** Up to its report a train stays within one duration, or within one PRI, and within the queue's window. */
  lemma LateTimes(rs: RadarSpec, start: u64, period: nat, n: nat)
    requires Late(rs, start, period) && 1 <= n < ReportAt(rs)
    ensures n >= 2 ==> n * period <= Duration(rs, period)
    ensures n * period <= WindowSize(rs) && n * period < 0x100_0000
  {
    LateStart(rs, start, period);
    Product(n, rs.ppb - 1, period, period);
    Product(n, rs.ppb, period, rs.priMax);
    Product(n, 0xFF, period, 0xFFFF);
    Product(1, rs.numPri, rs.priMax * rs.ppb, rs.priMax * rs.ppb);
    Commute(rs.priMax * rs.ppb, rs.numPri);
    Commute(rs.priMax, rs.ppb);
    Commute(period, rs.ppb - 1);
  }

  lemma Commute(x: nat, y: nat)
    ensures x * y == y * x
  {
  }

  lemma TimeBetween(start: nat, period: nat, i: nat, n: nat)
    requires i <= n
    ensures TrainTime(start, period, n) - TrainTime(start, period, i) == (n - i) * period
    ensures start <= TrainTime(start, period, i) <= TrainTime(start, period, n)
  {
  }

  // ---------- the sequences found by a late pulse ----------

  lemma LateDeadline(rs: RadarSpec, start: u64, period: nat, pri: nat, first: u64)
    requires Late(rs, start, period) && period <= pri < 0x1_0000 && first >= start
    ensures Wrap64(first + Duration(rs, pri)) < start
  {
    LateStart(rs, start, period);
    Product(rs.ppb - 1, rs.ppb - 1, period, pri);
    Product(rs.ppb - 1, 0xFE, pri, 0xFFFF);
    Commute(period, rs.ppb - 1);
    Commute(pri, rs.ppb - 1);
  }

  lemma LateInterval(rs: RadarSpec, start: u64, period: nat, pulse: u64, ts: u64)
    requires Late(rs, start, period) && start <= pulse <= ts - period && Wrap32(ts - pulse) <= rs.priMax
    ensures period <= PriToUse(rs, Wrap32(ts - pulse)) < 0x1_0000
  {
    LateStart(rs, start, period);
    hide Roomy;
  }

  lemma FirstIsWithin(pulses: seq<u64>, i: nat, first: u64, start: u64, last: int)
    requires AllWithin(pulses, start, last) && i < |pulses| && (first == pulses[i] || first in pulses[i + 1..])
    ensures first >= start
  {
  }

  /** Every sequence found has a deadline that has wrapped around. */
  lemma LateCandidate(rs: RadarSpec, pulses: seq<u64>, i: nat, ts: u64, start: u64, period: nat)
    requires Late(rs, start, period) && AllWithin(pulses, start, ts - period) && i < |pulses|
    requires Wrap32(ts - pulses[i]) <= rs.priMax
    ensures Candidate(rs, pulses, i, ts).deadline < start
  {
    LateInterval(rs, start, period, pulses[i], ts);
    hide Duration, PriToUse, Wrap32, Wrap64, LookBack;
    var pri := PriToUse(rs, Wrap32(ts - pulses[i]));
    LookBackBounds(pulses[i + 1..], ts, pri, Wrap64(ts - Duration(rs, pri)), rs.tolerance,
                   Lookback(2, 0, pulses[i]), 0);
    FirstIsWithin(pulses, i, Candidate(rs, pulses, i, ts).firstTs, start, ts - period);
    hide Late, AllWithin;
    LateDeadline(rs, start, period, pri, Candidate(rs, pulses, i, ts).firstTs);
  }

  lemma {:induction false} LateCandidates(rs: RadarSpec, pulses: seq<u64>, i: nat, ts: u64, minCount: nat,
                                          start: u64, period: nat)
    requires Late(rs, start, period) && AllWithin(pulses, start, ts - period) && i <= |pulses|
    ensures AllBefore(Candidates(rs, pulses, i, ts, minCount), start)
    decreases |pulses| - i
  {
    if i < |pulses| {
      LateCandidates(rs, pulses, i + 1, ts, minCount, start, period);
      if Wrap32(ts - pulses[i]) <= rs.priMax {
        hide Late, Candidate;
        LateCandidate(rs, pulses, i, ts, start, period);
      }
    }
  }

  lemma MultipleMatches(m: nat, period: nat, tolerance: nat)
    requires m >= 1 && period > 0
    ensures GetMultiple(m * period, period, tolerance) > 0
  {
    hide GetMultiple;
    GetMultipleDecides(m * period, period, tolerance);
    assert WithinTolerance(m * period, m, period, tolerance);
  }

  lemma ShortDistance(d: nat)
    requires d < 0x1_0000_0000
    ensures Wrap32(d) == d
  {
  }

  /** The search through the older pulses of a train finds them all. */
  lemma {:induction false} LookBackAll(older: seq<u64>, start: u64, period: nat, n: nat, m: nat, ts: u64,
                                       minValid: u64, tolerance: nat, acc: Lookback)
    requires HoldsTrain(older, start, period, m) && m < n && (m > 0 ==> minValid <= start)
    requires ts == TrainTime(start, period, n) && n * period < 0x100_0000 && period > 0
    ensures LookBack(older, ts, period, minValid, tolerance, acc, 0) ==
            Lookback(acc.count + m, acc.falses, if m == 0 then acc.firstTs else start)
    decreases m
  {
    hide GetMultiple, TrainTime, Wrap32;
    if m > 0 {
      TimeBetween(start, period, m - 1, n);
      TrainStart(start, period);
      Product(n - (m - 1), n, period, period);
      ShortDistance((n - (m - 1)) * period);
      MultipleMatches(n - (m - 1), period, tolerance);
      LookBackAll(older[1..], start, period, n, m - 1, ts, minValid, tolerance,
                  Lookback(acc.count + 1, acc.falses, older[0]));
    }
  }

  lemma LateWindow(rs: RadarSpec, start: u64, period: nat, elapsed: nat, ts: u64)
    requires Late(rs, start, period) && ts == start + elapsed && elapsed <= Duration(rs, period)
    ensures Wrap64(ts - Duration(rs, period)) <= start
  {
    LateStart(rs, start, period);
    hide Late, Duration;
  }

  /** The sequence that a pulse forms with the newest queued one is the whole train. */
  lemma WholeTrainFormed(rs: RadarSpec, q: seq<u64>, start: u64, period: nat, n: nat, ts: u64)
    requires Late(rs, start, period) && 1 <= n < ReportAt(rs)
    requires HoldsTrain(q, start, period, n) && ts == TrainTime(start, period, n)
    ensures Wrap32(ts - q[0]) == period && Candidate(rs, q, 0, ts) == TrainSequence(rs, start, period, n + 1)
  {
    LateStart(rs, start, period);
    LateTimes(rs, start, period, n);
    TimeBetween(start, period, 0, n);
    TimeBetween(start, period, n - 1, n);
    TrainStart(start, period);
    ShortDistance(period);
    assert PriToUse(rs, period) == period;
    hide LookBack, Duration, TrainTime, WindowSize, Wrap64, Wrap32, Late, PriToUse, ReportAt;
    if n >= 2 {
      LateWindow(rs, start, period, n * period, ts);
    }
    LookBackAll(q[1..], start, period, n, n - 1, ts, Wrap64(ts - Duration(rs, period)), rs.tolerance,
                Lookback(2, 0, q[0]));
    Unwrapped(ts);
  }

  /** It is found first. */
  lemma WholeTrainFound(rs: RadarSpec, q: seq<u64>, start: u64, period: nat, n: nat, ts: u64)
    requires Late(rs, start, period) && 1 <= n < ReportAt(rs)
    requires HoldsTrain(q, start, period, n) && ts == TrainTime(start, period, n)
    ensures Candidates(rs, q, 0, ts, 0) == [TrainSequence(rs, start, period, n + 1)] + Candidates(rs, q, 1, ts, 0)
  {
    WholeTrainFormed(rs, q, start, period, n, ts);
    hide Candidate, Duration, TrainTime, Wrap64, ReportAt, Wrap32;
  }

  lemma {:induction false} LastDetected(rs: RadarSpec, ss: seq<Sequence>, s: Sequence)
    requires IsRadar(rs, s) && forall x | x in ss :: !IsRadar(rs, x)
    ensures CheckDetection(rs, ss + [s]) == Some(s)
  {
    hide IsRadar;
    if ss != [] {
      LastDetected(rs, ss[1..], s);
      assert (ss + [s])[1..] == ss[1..] + [s];
    }
  }

  lemma TrainIsRadar(rs: RadarSpec, start: u64, period: nat, n: nat)
    requires rs.ppb >= 1 && 1 <= n < ReportAt(rs)
    ensures IsRadar(rs, TrainSequence(rs, start, period, n + 1)) <==> n + 1 == ReportAt(rs)
    ensures TrainSequence(rs, start, period, n + 1).count == n + 1
  {
    hide Duration, TrainTime, Wrap64;
  }

  /** Among the sequences found only the whole train can be reported, and it is once it is long enough. */
  lemma WholeTrainDetected(rs: RadarSpec, q: seq<u64>, start: u64, period: nat, n: nat, ts: u64)
    requires Late(rs, start, period) && 1 <= n < ReportAt(rs)
    requires HoldsTrain(q, start, period, n) && ts == TrainTime(start, period, n)
    ensures CheckDetection(rs, Reversed(Candidates(rs, q, 0, ts, 0))) ==
            if n + 1 == ReportAt(rs) then Some(TrainSequence(rs, start, period, n + 1)) else None
  {
    var s, rest := TrainSequence(rs, start, period, n + 1), Candidates(rs, q, 1, ts, 0);
    WholeTrainFound(rs, q, start, period, n, ts);
    CandidateCounts(rs, q, 1, ts, 0);
    hide Candidates, HoldsTrain, Duration, TrainTime, FitsSpec, Roomy;
    assert ([s] + rest)[1..] == rest;
    TrainIsRadar(rs, start, period, n);
    hide Late, TrainSequence;
    if n + 1 == ReportAt(rs) {
      LastDetected(rs, Reversed(rest), s);
    }
  }

  /** The queue of a late train drops nothing. */
  lemma LateEnqueued(rs: RadarSpec, q: seq<u64>, start: u64, period: nat, n: nat, ts: u64)
    requires Late(rs, start, period) && 1 <= n && n + 1 < ReportAt(rs)
    requires HoldsTrain(q, start, period, n) && ts == TrainTime(start, period, n)
    ensures HoldsTrain(Enqueued(rs, q, ts), start, period, n + 1)
  {
    LateTimes(rs, start, period, n);
    TimeBetween(start, period, 0, n);
    TrainStart(start, period);
    hide TrainTime, WindowSize;
    assert q[n - 1] == start;
    assert ([ts] + q)[n] == start;
  }

  // ---------- one pulse of a late train ----------

  lemma LateListed(rs: RadarSpec, d: Detector, start: u64, period: nat, ts: u64)
    requires Late(rs, start, period) && LateState(d, start, ts - period) && start <= ts
    ensures MaxContinued(rs, d.seqs, ts) == 0 && ListedAfter(rs, d, ts) == Reversed(Candidates(rs, d.pulses, 0, ts, 0))
    ensures AllBefore(ListedAfter(rs, d, ts), start)
    ensures forall s | s in ListedAfter(rs, d, ts) :: 2 <= s.count <= |d.pulses| + 1
  {
    AllExpire(rs, d.seqs, ts);
    CandidateCounts(rs, d.pulses, 0, ts, 0);
    LateCandidates(rs, d.pulses, 0, ts, 0, start, period);
    hide Candidates, Extend, MaxContinued, Late;
    var found := Reversed(Candidates(rs, d.pulses, 0, ts, 0));
    assert found + [] == found;
  }

  lemma NoneWithin(start: u64, last: int)
    ensures AllWithin([], start, last)
  {
  }

  lemma WithinPush(q: seq<u64>, q': seq<u64>, start: u64, last: int, ts: u64)
    requires AllWithin(q, start, last) && last <= ts && start <= ts && (q' <= [ts] + q || q' == q)
    ensures AllWithin(q', start, ts)
  {
    assert q' <= [ts] + q ==> forall x | x in q' :: x in [ts] + q;
  }

  /** Whatever is allocated or not, a pulse of a late train keeps the state late, and adds at most itself. */
  lemma LateStep(rs: RadarSpec, kmalloc: Kmalloc, d: Detector, p: Pools, e: PulseEvent, start: u64, period: nat)
    requires Late(rs, start, period) && LateState(d, start, d.lastTs) && start <= d.lastTs
    requires e.ts == d.lastTs + period && IsTrain(rs, [e], e.ts, period)
    ensures var o := AddPulse(rs, kmalloc, d, p, e);
            && LateState(o.det, start, e.ts) && |o.det.pulses| <= |d.pulses| + 1
            && (o.radar.Some? ==> ReportAt(rs) <= |d.pulses| + 1 && Undisturbed(p, o.pools))
            && (!Undisturbed(p, o.pools) ==> |o.det.pulses| <= |d.pulses|)
            && o.pools.pulse.errors >= p.pulse.errors && o.pools.pseq.errors >= p.pseq.errors
  {
    TrainAccepts(rs, d, e, start, period);
    StepShape(rs, kmalloc, d, p, e);
    LateListed(rs, d, start, period, e.ts);
    hide AddPulse, Candidates, MaxContinued, Late, Accepts, IsTrain, Enqueued, ListedAfter, AllWithin;
    var o := AddPulse(rs, kmalloc, d, p, e);
    NoneWithin(start, e.ts);
    if o.det.pulses != [] {
      WithinPush(d.pulses, o.det.pulses, start, d.lastTs, e.ts);
    }
  }

  /** With all pulses before it queued, and memory for it, a pulse is queued as well or reports the train. */
  lemma LateProgress(rs: RadarSpec, kmalloc: Kmalloc, d: Detector, p: Pools, e: PulseEvent,
                     start: u64, period: nat, n: nat)
    requires Late(rs, start, period) && 1 <= n < ReportAt(rs)
    requires LateState(d, start, TrainTime(start, period, n - 1)) && HoldsTrain(d.pulses, start, period, n)
    requires e.ts == TrainTime(start, period, n) && IsTrain(rs, [e], e.ts, period)
    requires Undisturbed(p, AddPulse(rs, kmalloc, d, p, e).pools)
    ensures var o := AddPulse(rs, kmalloc, d, p, e);
            if n + 1 == ReportAt(rs) then o.radar == Some(TrainSequence(rs, start, period, n + 1))
            else o.radar == None && HoldsTrain(o.det.pulses, start, period, n + 1)
  {
    TimeBetween(start, period, n - 1, n);
    TimeBetween(start, period, 0, n);
    TrainStart(start, period);
    TrainAccepts(rs, d, e, start, period);
    StepShape(rs, kmalloc, d, p, e);
    LateListed(rs, d, start, period, e.ts);
    WholeTrainDetected(rs, d.pulses, start, period, n, e.ts);
    if n + 1 < ReportAt(rs) {
      LateEnqueued(rs, d.pulses, start, period, n, e.ts);
    }
    hide AddPulse, Candidates, MaxContinued, Late, Accepts, IsTrain, Enqueued, HoldsTrain, TrainTime, ListedAfter;
  }
}
