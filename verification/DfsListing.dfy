/** What one pulse does to the queue and the list of a detector, told in numbers and positions. */
module DfsListing {
  import opened Options
  import opened MachineWords
  import opened DfsMultiple
  import opened DfsModel
  import opened DfsTrains

  // ---------- acceptance ----------

  /** Exactly the pulses of acceptable width and chirp that come a tolerance after the last one, modulo 2^64, move the
      time; the others change nothing. If a sequence cannot be allocated the detector is emptied. Otherwise the pulse is
      queued, unless it is reported or cannot be allocated. */
  lemma AcceptedExactly(rs: RadarSpec, kmalloc: Kmalloc, d: Detector, p: Pools, e: PulseEvent)
    requires rs.ppb >= 1
    ensures var o := AddPulse(rs, kmalloc, d, p, e);
            if rs.widthMin <= e.width <= rs.widthMax && (rs.chirp ==> e.chirp)
               && (e.ts - d.lastTs) % 0x1_0000_0000_0000_0000 >= rs.tolerance
            then
              && o.det.lastTs == e.ts
              && if o.pools.pseq.errors != p.pseq.errors then o.det.seqs == [] && o.det.pulses == [] && o.radar == None
                 else o.det.pulses == if o.radar.Some? || o.pools.pulse.errors != p.pulse.errors then d.pulses
                                      else Enqueued(rs, d.pulses, e.ts)
            else o == Outcome(d, p, None)
  {
    if Accepts(rs, d, e) {
      StepShape(rs, kmalloc, d, p, e);
    }
    hide Candidates, Extend, MaxContinued, IsRadar, Enqueued;
  }

  /** The periods a radar type looks for. */
  lemma FitsSpecExactly(rs: RadarSpec, period: nat)
    requires ValidSpec(rs)
    ensures FitsSpec(rs, period) <==>
            && 16 <= period && rs.priMin <= period <= rs.priMax
            && (rs.priMax == rs.priMin + 32 ==> period == rs.priMin + 16)
  {
  }

  // ---------- the queue ----------

  /** Of a queue that is not over its limit, all pulses stay that are within the time window, but for the oldest of
      twice the burst length. */
  lemma EnqueuedExactly(rs: RadarSpec, pulses: seq<u64>, ts: u64, k: nat)
    requires rs.ppb >= 1 && |pulses| < 2 * rs.ppb && k <= |pulses|
    requires forall i, j :: 0 <= i < j < |pulses| ==> pulses[i] >= pulses[j]
    ensures k < |Enqueued(rs, pulses, ts)| <==>
            k + 1 < 2 * rs.ppb && ts - ([ts] + pulses)[k] <= rs.priMax * rs.ppb * rs.numPri
    ensures Enqueued(rs, pulses, ts) <= [ts] + pulses
  {
    hide CheckWindow;
    WindowExactly(rs, [ts] + pulses, ts, k);
    assert |CheckWindow(rs, [ts] + pulses, ts)| <= |pulses| + 1;
  }

  lemma WindowExactly(rs: RadarSpec, q: seq<u64>, ts: u64, k: nat)
    requires k < |q| && q[0] == ts && forall i, j :: 1 <= i < j < |q| ==> q[i] >= q[j]
    ensures k < |CheckWindow(rs, q, ts)| <==> ts - q[k] <= rs.priMax * rs.ppb * rs.numPri
  {
    Window(rs);
    hide WindowSize, DropOld;
    if |q| >= 2 && ts > WindowSize(rs) {
      DroppedExactly(q, ts - WindowSize(rs), k);
    }
  }

  lemma Window(rs: RadarSpec)
    ensures WindowSize(rs) == rs.priMax * rs.ppb * rs.numPri
  {
  }

  lemma {:induction false} DroppedExactly(q: seq<u64>, minValid: int, k: nat)
    requires k < |q| && q[0] >= minValid && forall i, j :: 1 <= i < j < |q| ==> q[i] >= q[j]
    ensures k < |DropOld(q, minValid)| <==> q[k] >= minValid
  {
    var n := |q| - 1;
    if q[n] < minValid && k < n {
      DroppedExactly(q[..n], minValid, k);
    }
  }

  // ---------- new sequences ----------

  /** Does queued pulse number k lie near a multiple of `pri` before `ts`, as seen through 32 bits? */
  ghost predicate Matches(q: seq<u64>, k: nat, ts: u64, pri: nat, tolerance: nat)
    requires k < |q|
  {
    NearMultiple((ts - q[k]) % 0x1_0000_0000, pri, tolerance)
  }

  ghost function MatchesIn(q: seq<u64>, from: nat, to: nat, ts: u64, pri: nat, tolerance: nat): set<nat>
    requires to <= |q|
  {
    set k: nat | from <= k < to && Matches(q, k, ts, pri, tolerance)
  }

  /** The search from pulse number j on, when number m was the last match, ends at number `reach` with `first` as the
      oldest match. */
  lemma {:induction false} LookBackExactly(
      q: seq<u64>, m: nat, j: nat, ts: u64, pri: nat, minValid: u64, tolerance: nat, acc: Lookback)
    returns (first: nat, reach: nat)
    requires m < j <= |q| && acc.firstTs == q[m]
    ensures m <= first < reach <= |q| && j <= reach
    ensures forall k :: j <= k < reach ==> q[k] >= minValid
    ensures reach < |q| ==> q[reach] < minValid
    ensures first == m || (j <= first && Matches(q, first, ts, pri, tolerance))
    ensures forall k :: j <= k < reach && first < k ==> !Matches(q, k, ts, pri, tolerance)
    ensures var lb := LookBack(q[j..], ts, pri, minValid, tolerance, acc, j - 1 - m);
            && lb.firstTs == q[first] && lb.count == acc.count + |MatchesIn(q, j, first + 1, ts, pri, tolerance)|
            && lb.count + lb.falses == acc.count + acc.falses + (first - m)
    decreases |q| - j
  {
    hide Matches, MatchesIn, LookBack;
    SearchStep(q, j, ts, pri, minValid, tolerance, acc, j - 1 - m);
    if j == |q| || q[j] < minValid {
      first, reach := m, j;
      NoneBetween(q, j, m + 1, ts, pri, tolerance);
    } else {
      if Matches(q, j, ts, pri, tolerance) {
        var acc' := Lookback(acc.count + 1, acc.falses + (j - 1 - m), q[j]);
        first, reach := LookBackExactly(q, j, j + 1, ts, pri, minValid, tolerance, acc');
        OneMore(q, j, first + 1, ts, pri, tolerance);
      } else {
        first, reach := LookBackExactly(q, m, j + 1, ts, pri, minValid, tolerance, acc);
        if j <= first {
          OneMore(q, j, first + 1, ts, pri, tolerance);
        } else {
          NoneBetween(q, j, first + 1, ts, pri, tolerance);
          NoneBetween(q, j + 1, first + 1, ts, pri, tolerance);
        }
      }
    }
  }

  lemma SearchStep(q: seq<u64>, j: nat, ts: u64, pri: nat, minValid: u64, tolerance: nat, acc: Lookback, pending: nat)
    requires j <= |q|
    ensures LookBack(q[j..], ts, pri, minValid, tolerance, acc, pending) ==
            if j == |q| || q[j] < minValid then acc
            else if Matches(q, j, ts, pri, tolerance) then
              LookBack(q[j + 1..], ts, pri, minValid, tolerance,
                       Lookback(acc.count + 1, acc.falses + pending, q[j]), 0)
            else LookBack(q[j + 1..], ts, pri, minValid, tolerance, acc, pending + 1)
  {
    if j < |q| {
      MatchDecided(q, j, ts, pri, tolerance);
      assert q[j..][0] == q[j] && q[j..][1..] == q[j + 1..];
    }
    hide Matches, GetMultiple, Wrap32;
  }

  lemma NoneBetween(q: seq<u64>, from: nat, to: nat, ts: u64, pri: nat, tolerance: nat)
    requires to <= from && to <= |q|
    ensures MatchesIn(q, from, to, ts, pri, tolerance) == {}
  {
  }

  lemma OneMore(q: seq<u64>, from: nat, to: nat, ts: u64, pri: nat, tolerance: nat)
    requires from < to <= |q|
    ensures |MatchesIn(q, from, to, ts, pri, tolerance)| ==
            |MatchesIn(q, from + 1, to, ts, pri, tolerance)| + if Matches(q, from, ts, pri, tolerance) then 1 else 0
  {
    hide Matches;
    var all, rest := MatchesIn(q, from, to, ts, pri, tolerance), MatchesIn(q, from + 1, to, ts, pri, tolerance);
    assert from !in rest;
    assert all == if Matches(q, from, ts, pri, tolerance) then {from} + rest else rest;
  }

  lemma MatchDecided(q: seq<u64>, k: nat, ts: u64, pri: nat, tolerance: nat)
    requires k < |q|
    ensures Matches(q, k, ts, pri, tolerance) <==> GetMultiple(Wrap32(ts - q[k]), pri, tolerance) > 0
  {
    GetMultipleDecides(Wrap32(ts - q[k]), pri, tolerance);
  }

  /** The sequence that a pulse forms with queued pulse number i. Of the pulses behind number i, up to the first one
      outside of the time window, all that match are counted, and those in between are its misses. */
  lemma CandidateExactly(rs: RadarSpec, q: seq<u64>, i: nat, ts: u64) returns (first: nat, reach: nat)
    requires rs.ppb >= 1 && i < |q|
    ensures var c := Candidate(rs, q, i, ts);
            var pri := if rs.priMin + 32 == rs.priMax then rs.priMin + 16 else (ts - q[i]) % 0x1_0000_0000;
            var dur := pri * (rs.ppb - 1) + 2 * rs.tolerance;
            var start := (ts - dur) % 0x1_0000_0000_0000_0000;
            && i <= first < reach <= |q|
            && (forall k :: i < k < reach ==> q[k] >= start) && (reach < |q| ==> q[reach] < start)
            && (first == i || Matches(q, first, ts, pri, rs.tolerance))
            && (forall k :: first < k < reach ==> !Matches(q, k, ts, pri, rs.tolerance))
            && c.pri == pri && c.dur == dur && c.lastTs == ts && c.firstTs == q[first]
            && c.count == 2 + |MatchesIn(q, i + 1, first + 1, ts, pri, rs.tolerance)|
            && c.count + c.falses == 2 + (first - i)
            && c.deadline == (q[first] + dur) % 0x1_0000_0000_0000_0000
  {
    hide NearMultiple, LookBack;
    var pri := PriToUse(rs, Wrap32(ts - q[i]));
    var dur := Duration(rs, pri);
    first, reach := LookBackExactly(q, i, i + 1, ts, pri, Wrap64(ts - dur), rs.tolerance, Lookback(2, 0, q[i]));
  }

  /** Does queued pulse number b start a sequence: its distance is in the PRI range, no younger one from number i on is
      beyond that range, and the sequence is longer than wanted? */
  ghost predicate Starts(rs: RadarSpec, q: seq<u64>, i: nat, b: nat, ts: u64, minCount: nat)
    requires rs.ppb >= 1
  {
    && i <= b < |q| && rs.priMin <= (ts - q[b]) % 0x1_0000_0000
    && (forall j :: i <= j <= b ==> (ts - q[j]) % 0x1_0000_0000 <= rs.priMax)
    && Candidate(rs, q, b, ts).count > minCount
  }

  lemma {:induction false} CandidatesExactly(rs: RadarSpec, q: seq<u64>, i: nat, ts: u64, minCount: nat)
    returns (bases: seq<nat>)
    requires rs.ppb >= 1 && rs.priMin <= rs.priMax && i <= |q|
    ensures forall b: nat :: b in bases <==> Starts(rs, q, i, b, ts, minCount)
    ensures forall k :: 0 <= k < |bases| ==> i <= bases[k]
    ensures forall j, k :: 0 <= j < k < |bases| ==> bases[j] < bases[k]
    ensures |bases| == |Candidates(rs, q, i, ts, minCount)|
    ensures forall k :: 0 <= k < |bases| ==>
              bases[k] < |q| && Candidates(rs, q, i, ts, minCount)[k] == Candidate(rs, q, bases[k], ts)
    decreases |q| - i
  {
    hide Candidate, Wrap32, Starts;
    if i == |q| || Wrap32(ts - q[i]) > rs.priMax {
      bases := [];
      forall b: nat ensures !Starts(rs, q, i, b, ts, minCount) {
        NotBeyond(rs, q, i, b, ts, minCount);
      }
    } else {
      var rest := CandidatesExactly(rs, q, i + 1, ts, minCount);
      bases := if rs.priMin <= Wrap32(ts - q[i]) && Candidate(rs, q, i, ts).count > minCount then [i] + rest else rest;
      forall b: nat ensures b in bases <==> Starts(rs, q, i, b, ts, minCount) {
        NotBeyond(rs, q, i, b, ts, minCount);
        assert b in rest <==> Starts(rs, q, i + 1, b, ts, minCount);
      }
    }
  }

  lemma NotBeyond(rs: RadarSpec, q: seq<u64>, i: nat, b: nat, ts: u64, minCount: nat)
    requires rs.ppb >= 1 && i <= |q|
    ensures Starts(rs, q, i, b, ts, minCount) <==>
            && i < |q| && Wrap32(ts - q[i]) <= rs.priMax
            && (Starts(rs, q, i + 1, b, ts, minCount)
                || (b == i && rs.priMin <= Wrap32(ts - q[i]) && Candidate(rs, q, i, ts).count > minCount))
  {
    hide Candidate;
  }

  // ---------- the list ----------

  /** Is the listed sequence still alive, and does the pulse lie near a multiple of its PRI after its last one? */
  ghost predicate GoesOn(rs: RadarSpec, s: Sequence, ts: u64) {
    ts <= s.deadline && NearMultiple((ts - s.lastTs) % 0x1_0000_0000, s.pri, rs.tolerance)
  }

  lemma GoesOnDecided(rs: RadarSpec, s: Sequence, ts: u64)
    ensures GoesOn(rs, s, ts) <==> ts <= s.deadline && Continues(rs, s, ts)
  {
    GetMultipleDecides(Wrap32(ts - s.lastTs), s.pri, rs.tolerance);
  }

  /** The longest sequence that goes on. */
  lemma {:induction false} MaxContinuedExactly(rs: RadarSpec, ss: seq<Sequence>, ts: u64)
    ensures forall s | s in ss && GoesOn(rs, s, ts) :: s.count + 1 <= MaxContinued(rs, ss, ts)
    ensures MaxContinued(rs, ss, ts) == 0 ||
            exists s :: s in ss && GoesOn(rs, s, ts) && s.count + 1 == MaxContinued(rs, ss, ts)
  {
    hide Continues, GoesOn;
    if ss != [] {
      MaxContinuedExactly(rs, ss[..|ss| - 1], ts);
      GoesOnDecided(rs, ss[|ss| - 1], ts);
      assert ss == ss[..|ss| - 1] + [ss[|ss| - 1]];
    }
  }

  /** The sequences that are not past their deadline stay, in their order; the pulse is a hit or a miss of each. */
  lemma {:induction false} ExtendExactly(rs: RadarSpec, ss: seq<Sequence>, ts: u64) returns (kept: seq<nat>)
    ensures forall i: nat :: i in kept <==> i < |ss| && ts <= ss[i].deadline
    ensures forall j, k :: 0 <= j < k < |kept| ==> kept[j] < kept[k]
    ensures |kept| == |Extend(rs, ss, ts)|
    ensures forall k :: 0 <= k < |kept| ==>
              && kept[k] < |ss| && var s := ss[kept[k]];
              Extend(rs, ss, ts)[k] ==
              if GoesOn(rs, s, ts) then s.(lastTs := ts, count := s.count + 1) else s.(falses := s.falses + 1)
  {
    hide Continues, GoesOn;
    kept := [];
    if ss != [] {
      var n := |ss| - 1;
      kept := ExtendExactly(rs, ss[..n], ts);
      GoesOnDecided(rs, ss[n], ts);
      if ts <= ss[n].deadline {
        kept := kept + [n];
      }
    }
  }

  /** The list `ss` holds the new sequences, that of the oldest base first, and behind them those that stay. New ones
      are longer than any sequence that goes on. */
  ghost predicate IsList(rs: RadarSpec, d: Detector, ts: u64, ss: seq<Sequence>,
                         bases: seq<nat>, kept: seq<nat>, minCount: nat)
    requires rs.ppb >= 1
  {
    && (forall s | s in d.seqs && GoesOn(rs, s, ts) :: s.count + 1 <= minCount)
    && (minCount == 0 || exists s :: s in d.seqs && GoesOn(rs, s, ts) && s.count + 1 == minCount)
    && (forall b: nat :: b in bases <==> Starts(rs, d.pulses, 0, b, ts, minCount))
    && (forall j, k :: 0 <= j < k < |bases| ==> bases[j] > bases[k])
    && (forall i: nat :: i in kept <==> i < |d.seqs| && ts <= d.seqs[i].deadline)
    && (forall j, k :: 0 <= j < k < |kept| ==> kept[j] < kept[k])
    && |ss| == |bases| + |kept|
    && (forall k :: 0 <= k < |bases| ==> bases[k] < |d.pulses| && ss[k] == Candidate(rs, d.pulses, bases[k], ts))
    && forall k :: 0 <= k < |kept| ==>
         && kept[k] < |d.seqs| && var s := d.seqs[kept[k]];
         ss[|bases| + k] == if GoesOn(rs, s, ts) then s.(lastTs := ts, count := s.count + 1)
                            else s.(falses := s.falses + 1)
  }

  /** The list after an accepted pulse whose allocations succeed. */
  lemma ListedExactly(rs: RadarSpec, kmalloc: Kmalloc, d: Detector, p: Pools, e: PulseEvent)
    returns (bases: seq<nat>, kept: seq<nat>, minCount: nat)
    requires rs.ppb >= 1 && rs.priMin <= rs.priMax && rs.widthMin <= e.width <= rs.widthMax && (rs.chirp ==> e.chirp)
    requires (e.ts - d.lastTs) % 0x1_0000_0000_0000_0000 >= rs.tolerance
    requires AddPulse(rs, kmalloc, d, p, e).pools.pseq.errors == p.pseq.errors
    ensures IsList(rs, d, e.ts, AddPulse(rs, kmalloc, d, p, e).det.seqs, bases, kept, minCount)
  {
    hide AddPulse, ListedAfter, IsList, MaxContinued, Enqueued, CheckDetection, Accepts, Candidates;
    IsAccepted(rs, d, e);
    StepShape(rs, kmalloc, d, p, e);
    bases, kept, minCount := ListedAt(rs, d, e.ts);
  }

  lemma ListedAt(rs: RadarSpec, d: Detector, ts: u64) returns (bases: seq<nat>, kept: seq<nat>, minCount: nat)
    requires rs.ppb >= 1 && rs.priMin <= rs.priMax
    ensures IsList(rs, d, ts, ListedAfter(rs, d, ts), bases, kept, minCount)
  {
    hide Candidates, Candidate, Extend, MaxContinued, GoesOn, Starts;
    minCount := MaxContinued(rs, d.seqs, ts);
    MaxContinuedExactly(rs, d.seqs, ts);
    var up := CandidatesExactly(rs, d.pulses, 0, ts, minCount);
    kept := ExtendExactly(rs, d.seqs, ts);
    bases := Downwards(up);
    ReversedAt(Candidates(rs, d.pulses, 0, ts, minCount));
  }

  lemma Downwards(up: seq<nat>) returns (down: seq<nat>)
    requires forall j, k :: 0 <= j < k < |up| ==> up[j] < up[k]
    ensures |down| == |up| && forall k :: 0 <= k < |down| ==> down[k] == up[|up| - 1 - k]
    ensures (forall b: nat :: b in down <==> b in up) && forall j, k :: 0 <= j < k < |down| ==> down[j] > down[k]
  {
    down := seq(|up|, k requires 0 <= k < |up| => up[|up| - 1 - k]);
    assert forall k :: 0 <= k < |up| ==> down[|up| - 1 - k] == up[k];
  }

  lemma IsAccepted(rs: RadarSpec, d: Detector, e: PulseEvent)
    requires rs.widthMin <= e.width <= rs.widthMax && (rs.chirp ==> e.chirp)
    requires (e.ts - d.lastTs) % 0x1_0000_0000_0000_0000 >= rs.tolerance
    ensures Accepts(rs, d, e)
  {
  }

  lemma {:induction false} ReversedAt<T(!new)>(s: seq<T>)
    ensures |Reversed(s)| == |s| && forall k :: 0 <= k < |s| ==> Reversed(s)[k] == s[|s| - 1 - k]
  {
    if s != [] {
      ReversedAt(s[1..]);
    }
  }
}
