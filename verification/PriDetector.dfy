/** The detector object for one radar type; every method computes its counterpart in DfsModel. */
module PriDetectors {
  import opened Options
  import opened MachineWords
  import opened DfsMultiple
  import opened DfsModel
  import opened DfsPools

  class PriDetector {
    const rs: RadarSpec
    const pool: Pool
    const maxCount: nat
    const windowSize: nat
    var lastTs: u64
    var sequences: seq<Sequence>
    var pulses: seq<u64>
    var count: int
    ghost var accepted: seq<u64>
    ghost var queued: seq<u64>

    ghost predicate Valid()
      reads this
    {
      && rs.ppb >= 1
      && maxCount == 2 * rs.ppb
      && windowSize == WindowSize(rs)
      && count == |pulses|
    }

    ghost function State(): Detector
      reads this
    {
      Detector(lastTs, sequences, pulses, accepted, queued)
    }

    /** Only the list of sequences differs from `was`. */
    ghost predicate OnlySequences(ss: seq<Sequence>, was: Detector)
      reads this
    {
      && sequences == ss && lastTs == was.lastTs && pulses == was.pulses
      && accepted == was.accepted && queued == was.queued
    }

    constructor (rs: RadarSpec, pool: Pool)
      requires rs.ppb >= 1
      modifies pool
      ensures Valid() && State() == NEW_DETECTOR
      ensures this.rs == rs && this.pool == pool
      ensures pool.View() == Register(old(pool.View()))
    {
      this.rs, this.pool := rs, pool;
      lastTs, sequences, pulses, count := 0, [], [], 0;
      windowSize := rs.priMax * rs.ppb * rs.numPri;
      maxCount := rs.ppb * 2;
      accepted, queued := [], [];
      new;
      pool.RegisterRef();
    }

    /** Remove the oldest pulse. */
    method Dequeue() returns (more: bool)
      requires Valid()
      modifies this, pool
      ensures Valid()
      ensures old(pulses) == [] ==> State() == old(State()) && pool.View() == old(pool.View())
      ensures old(pulses) != [] ==>
                && State() == old(State()).(pulses := old(pulses)[..|old(pulses)| - 1])
                && pool.View() == old(pool.View()).(pulse := Give(old(pool.pulse), 1))
      ensures more <==> pulses != []
    {
      if pulses != [] {
        pulses := pulses[..|pulses| - 1];
        count := count - 1;
        pool.PutPulseElem();
      }
      more := count > 0;
    }

    /** Remove pulses older than the window. */
    method CheckWindow()
      requires Valid()
      modifies this, pool
      ensures Valid()
      ensures State() == old(State()).(pulses := DfsModel.CheckWindow(rs, old(pulses), old(lastTs)))
      ensures pool.View() == old(pool.View()).(pulse := Give(old(pool.pulse), |old(pulses)| - |pulses|))
    {
      if count < 2 {
        return;
      }
      if lastTs <= windowSize {
        return;
      }
      var minValid := lastTs - windowSize;
      while pulses != []
        invariant Valid() && pulses <= old(pulses)
        invariant State() == old(State()).(pulses := pulses)
        invariant DropOld(pulses, minValid) == DropOld(old(pulses), minValid)
        invariant pool.View() == old(pool.View()).(pulse := Give(old(pool.pulse), |old(pulses)| - |pulses|))
        decreases |pulses|
      {
        if pulses[|pulses| - 1] >= minValid {
          return;
        }
        var _ := Dequeue();
      }
    }

    method Enqueue(ts: u64) returns (ok: bool)
      requires Valid()
      modifies this, pool
      ensures Valid()
      ensures (State(), pool.View()) == DfsModel.Enqueue(rs, pool.kmalloc, old(State()), old(pool.View()), ts)
      ensures ok <==> Take(pool.kmalloc, old(pool.calls), old(pool.pulse)).0
    {
      hide DfsModel.CheckWindow, WindowSize;
      var found := pool.GetPulseElem();
      if !found {
        var fresh' := pool.Kmalloc();
        if !fresh' {
          pool.pulse := pool.pulse.(errors := pool.pulse.errors + 1);
          return false;
        }
        pool.pulse := pool.pulse.(allocs := pool.pulse.allocs + 1);
        pool.pulse := pool.pulse.(used := pool.pulse.used + 1);
      }
      queued := queued + [ts];
      pulses := [ts] + pulses;
      count := count + 1;
      lastTs := ts;
      CheckWindow();
      if count >= maxCount {
        var _ := Dequeue();
      }
      assert pulses == Enqueued(rs, old(pulses), ts);
      return true;
    }

    /** Start new sequences at `ts`; false when an allocation failed. */
    method CreateSequences(ts: u64, minCount: nat) returns (ok: bool)
      requires Valid()
      modifies this, pool
      ensures Valid()
      ensures (ok, State(), pool.View()) ==
              DfsModel.CreateSequences(rs, pool.kmalloc, old(State()), old(pool.View()), ts, minCount)
    {
      hide Candidate, Take, WindowSize, Candidates, TakeMany, Created, Taken, Reversed;
      ghost var all := Candidates(rs, pulses, 0, ts, minCount);
      ghost var found: seq<Sequence> := [];
      var i := 0;
      CreateStart(rs, pulses, ts, minCount, sequences);
      TakeStart(pool.kmalloc, pool.calls, pool.pseq, |all|);
      while i < |pulses|
        invariant 0 <= i <= |pulses| && |found| <= |all| && Valid()
        invariant Created(rs, pulses, ts, minCount, i, found, old(sequences), sequences)
        invariant Taken(pool.kmalloc, old(pool.calls), old(pool.pseq), |all|, |found|, pool.calls, pool.pseq)
        invariant OnlySequences(sequences, old(State()))
        invariant OnlyPseq(pool, old(pool.View()))
      {
        CreateStep(rs, pulses, ts, minCount, i, found, old(sequences), sequences);
        var delta := Wrap32(ts - pulses[i]);
        if delta < rs.priMin {
          i := i + 1;
          continue;
        }
        if delta > rs.priMax {
          break;
        }
        var ps := BuildSequence(i, ts);
        if ps.count <= minCount {
          i := i + 1;
          continue;
        }
        TakeStep(pool.kmalloc, old(pool.calls), old(pool.pseq), |all|, |found|, pool.calls, pool.pseq);
        var newPs := NewSequence();
        if !newPs {
          return false;
        }
        sequences := [ps] + sequences;
        found := found + [ps];
        i := i + 1;
      }
      CreateEnd(rs, pulses, ts, minCount, i, found, old(sequences), sequences);
      TakeEnd(pool.kmalloc, old(pool.calls), old(pool.pseq), |all|, pool.calls, pool.pseq);
      return true;
    }

    /** Get a sequence object from the pool, or else from the allocator. */
    method NewSequence() returns (ok: bool)
      modifies pool`calls, pool`pseq
      ensures (ok, pool.calls, pool.pseq) == Take(pool.kmalloc, old(pool.calls), old(pool.pseq))
    {
      ok := pool.GetPseqElem();
      if !ok {
        ok := pool.Kmalloc();
        if !ok {
          pool.pseq := pool.pseq.(errors := pool.pseq.errors + 1);
        } else {
          pool.pseq := pool.pseq.(allocs := pool.pseq.allocs + 1);
          pool.pseq := pool.pseq.(used := pool.pseq.used + 1);
        }
      }
    }

    /** The sequence that `ts` forms with queued pulse number i. */
    method BuildSequence(i: nat, ts: u64) returns (ps: Sequence)
      requires Valid() && i < |pulses|
      ensures ps == Candidate(rs, pulses, i, ts)
    {
      var pri := PriToUse(rs, Wrap32(ts - pulses[i]));
      var dur := pri * (rs.ppb - 1) + 2 * rs.tolerance;
      var count, countFalses := 2, 0;
      var firstTs: u64 := pulses[i];
      var tmpFalses := 0;
      var minValid := Wrap64(ts - dur);
      var j := i + 1;
      ghost var start := LookBack(pulses[i + 1..], ts, pri, minValid, rs.tolerance, Lookback(2, 0, pulses[i]), 0);
      while j < |pulses|
        invariant i + 1 <= j <= |pulses|
        invariant LookBack(pulses[j..], ts, pri, minValid, rs.tolerance,
                           Lookback(count, countFalses, firstTs), tmpFalses) == start
      {
        assert pulses[j..][1..] == pulses[j + 1..];
        if pulses[j] < minValid {
          break;
        }
        var factor := GetMultiple(Wrap32(ts - pulses[j]), pri, rs.tolerance);
        if factor > 0 {
          count := count + 1;
          firstTs := pulses[j];
          countFalses := countFalses + tmpFalses;
          tmpFalses := 0;
        } else {
          tmpFalses := tmpFalses + 1;
        }
        j := j + 1;
      }
      ps := Sequence(pri, dur, count, countFalses, firstTs, ts, Wrap64(firstTs + dur));
    }

    /** Drop listed sequence number i if it has expired, otherwise account for `ts` in it. Returns the next position
        to look at, and the new pulse count if `ts` continues the sequence. */
    method AccountFor(i: nat, ts: u64) returns (next: nat, count: nat)
      requires i < |sequences|
      modifies this`sequences, pool`pseq
      ensures sequences == Accounted(rs, old(sequences), i, ts)
      ensures next == i + |sequences| + 1 - |old(sequences)|
      ensures pool.pseq == Give(old(pool.pseq), |old(sequences)| - |sequences|)
      ensures count == Count(rs, old(sequences)[i], ts)
    {
      hide GetMultiple;
      var ps := sequences[i];
      next, count := i, 0;
      if ts > ps.deadline {
        sequences := sequences[..i] + sequences[i + 1..];
        pool.PutPseqElem();
      } else {
        var factor := GetMultiple(Wrap32(ts - ps.lastTs), ps.pri, rs.tolerance);
        if factor > 0 {
          ps := ps.(lastTs := ts, count := ps.count + 1);
          count := ps.count;
        } else {
          ps := ps.(falses := ps.falses + 1);
        }
        sequences := sequences[i := ps];
        next := i + 1;
      }
    }

    /** Account for `ts` in the listed sequences; returns the largest count among those it continues. */
    method AddToExistingSeqs(ts: u64) returns (maxCount: nat)
      requires Valid()
      modifies this, pool
      ensures Valid()
      ensures State() == old(State()).(seqs := Extend(rs, old(sequences), ts))
      ensures pool.View() == old(pool.View()).(pseq := Give(old(pool.pseq), |old(sequences)| - |sequences|))
      ensures maxCount == MaxContinued(rs, old(sequences), ts)
    {
      hide Accounted, Count, WindowSize, Extend, MaxContinued, Halfway;
      maxCount := 0;
      var i: nat := 0;
      ghost var before, seen := sequences, 0;
      LoopStart(rs, before, ts);
      while i < |sequences|
        invariant Valid() && |sequences| <= |before|
        invariant Halfway(rs, before, seen, ts, sequences, i)
        invariant seen <= |before| && |sequences| - i == |before| - seen
        invariant maxCount == MaxContinued(rs, before[..seen], ts)
        invariant pool.pseq == Give(old(pool.pseq), |before| - |sequences|)
        invariant OnlySequences(sequences, old(State()))
        invariant OnlyPseq(pool, old(pool.View())) && pool.calls == old(pool.calls)
        decreases |before| - seen
      {
        LoopStep(rs, before, seen, ts, sequences, i);
        var n;
        i, n := AccountFor(i, ts);
        if maxCount < n {
          maxCount := n;
        }
        seen := seen + 1;
      }
      LoopEnd(rs, before, ts, sequences, i);
    }

    method CheckDetection() returns (found: Option<Sequence>)
      ensures found == DfsModel.CheckDetection(rs, sequences)
      ensures found.Some? <==>
              exists s :: s in sequences && s.count >= rs.ppbThresh && s.count * rs.numPri >= s.falses
    {
      hide DfsModel.CheckDetection;
      var i := 0;
      assert sequences[0..] == sequences;
      while i < |sequences|
        invariant 0 <= i <= |sequences|
        invariant DfsModel.CheckDetection(rs, sequences[i..]) == DfsModel.CheckDetection(rs, sequences)
      {
        var ps := sequences[i];
        DetectionStep(rs, sequences, i);
        if ps.count >= rs.ppbThresh && ps.count * rs.numPri >= ps.falses {
          return Some(ps);
        }
        i := i + 1;
      }
      NoDetection(rs);
      return None;
    }

    /** Give everything back to the pools and restart at time `ts`. */
    method Reset(ts: u64)
      requires Valid()
      modifies this, pool
      ensures Valid()
      ensures (State(), pool.View()) == DfsModel.Reset(old(State()), old(pool.View()), ts)
    {
      while sequences != []
        invariant Valid() && |sequences| <= |old(sequences)| && pulses == old(pulses)
        invariant pool.View() == old(pool.View()).(pseq := Give(old(pool.pseq), |old(sequences)| - |sequences|))
        decreases |sequences|
      {
        sequences := sequences[1..];
        pool.PutPseqElem();
      }
      while pulses != []
        invariant |pulses| <= |old(pulses)| && sequences == []
        invariant pool.View() == old(pool.View()).(pseq := Give(old(pool.pseq), |old(sequences)|),
                                                   pulse := Give(old(pool.pulse), |old(pulses)| - |pulses|))
        decreases |pulses|
      {
        pulses := pulses[1..];
        pool.PutPulseElem();
      }
      count := 0;
      lastTs := ts;
      accepted, queued := [], [];
    }

    method Exit()
      requires Valid()
      modifies this, pool
      ensures Valid() && State() == NEW_DETECTOR
      ensures pool.View() == Deregister(DfsModel.Reset(old(State()), old(pool.View()), 0).1)
    {
      Reset(0);
      pool.DeregisterRef();
    }

    /** Process one pulse; returns the sequence that was detected as radar, if any. */
    method AddPulse(event: PulseEvent) returns (radar: Option<Sequence>)
      requires Valid()
      modifies this, pool
      ensures Valid()
      ensures Outcome(State(), pool.View(), radar) ==
              DfsModel.AddPulse(rs, pool.kmalloc, old(State()), old(pool.View()), event)
    {
      hide Extend, MaxContinued, DfsModel.CreateSequences, DfsModel.Enqueue, DfsModel.CheckDetection, Take, WindowSize;
      var ts := event.ts;
      if rs.widthMin > event.width || rs.widthMax < event.width {
        return None;
      }
      if Wrap64(ts - lastTs) < rs.tolerance {
        return None;
      }
      if rs.chirp && rs.chirp != event.chirp {
        return None;
      }
      lastTs := ts;
      accepted := accepted + [ts];
      var maxUpdated := AddToExistingSeqs(ts);
      var ok := CreateSequences(ts, maxUpdated);
      if !ok {
        Reset(ts);
        return None;
      }
      radar := CheckDetection();
      if radar.None? {
        var _ := Enqueue(ts);
      }
    }
  }

  /** Only the sequence counters of the pool differ from `was`. */
  ghost predicate OnlyPseq(pool: Pool, was: Pools)
    reads pool
  {
    pool.View() == was.(pseq := pool.pseq, calls := pool.calls)
  }

  /** The list after dealing with its element number i. */
  ghost function Accounted(rs: RadarSpec, ss: seq<Sequence>, i: nat, ts: u64): (r: seq<Sequence>)
    requires i < |ss|
    ensures |ss| - 1 <= |r| <= |ss|
  {
    if ts > ss[i].deadline then ss[..i] + ss[i + 1..] else ss[i := Touch(rs, ss[i], ts)]
  }

  ghost function Count(rs: RadarSpec, s: Sequence, ts: u64): nat {
    if ts <= s.deadline && Continues(rs, s, ts) then s.count + 1 else 0
  }

  /** The first `seen` sequences of `before` are dealt with; `i` is the position of the next one. */
  ghost predicate Halfway(rs: RadarSpec, before: seq<Sequence>, seen: nat, ts: u64, ss: seq<Sequence>, i: nat) {
    && seen <= |before|
    && ss == Extend(rs, before[..seen], ts) + before[seen..]
    && i == |Extend(rs, before[..seen], ts)|
  }

  lemma LoopStart(rs: RadarSpec, before: seq<Sequence>, ts: u64)
    ensures Halfway(rs, before, 0, ts, before, 0) && MaxContinued(rs, before[..0], ts) == 0
  {
  }

  lemma LoopStep(rs: RadarSpec, before: seq<Sequence>, seen: nat, ts: u64, ss: seq<Sequence>, i: nat)
    requires Halfway(rs, before, seen, ts, ss, i) && seen < |before|
    ensures i < |ss| && ss[i] == before[seen]
    ensures var ss' := Accounted(rs, ss, i, ts);
            Halfway(rs, before, seen + 1, ts, ss', i + |ss'| + 1 - |ss|)
    ensures var m, n := MaxContinued(rs, before[..seen], ts), Count(rs, ss[i], ts);
            MaxContinued(rs, before[..seen + 1], ts) == if m < n then n else m
  {
    assert before[..seen + 1][..seen] == before[..seen];
  }

  lemma LoopEnd(rs: RadarSpec, before: seq<Sequence>, ts: u64, ss: seq<Sequence>, i: nat)
    requires Halfway(rs, before, |before|, ts, ss, i)
    ensures ss == Extend(rs, before, ts) && MaxContinued(rs, before[..|before|], ts) == MaxContinued(rs, before, ts)
  {
    assert before[..|before|] == before;
  }

  /** `found` are the new sequences of the queued pulses before number i, all listed now. */
  ghost predicate Created(rs: RadarSpec, pulses: seq<u64>, ts: u64, minCount: nat, i: nat,
                          found: seq<Sequence>, before: seq<Sequence>, ss: seq<Sequence>)
  {
    && rs.ppb >= 1 && i <= |pulses|
    && Candidates(rs, pulses, 0, ts, minCount) == found + Candidates(rs, pulses, i, ts, minCount)
    && ss == Reversed(found) + before
  }

  lemma CreateStart(rs: RadarSpec, pulses: seq<u64>, ts: u64, minCount: nat, before: seq<Sequence>)
    requires rs.ppb >= 1
    ensures Created(rs, pulses, ts, minCount, 0, [], before, before)
  {
    assert Reversed<Sequence>([]) + before == before;
  }

  lemma CreateStep(rs: RadarSpec, pulses: seq<u64>, ts: u64, minCount: nat, i: nat,
                   found: seq<Sequence>, before: seq<Sequence>, ss: seq<Sequence>)
    requires Created(rs, pulses, ts, minCount, i, found, before, ss) && i < |pulses|
    ensures var delta, c := Wrap32(ts - pulses[i]), Candidate(rs, pulses, i, ts);
            var all := Candidates(rs, pulses, 0, ts, minCount);
            && ss == Reversed(found) + before
            && (delta < rs.priMin || (delta <= rs.priMax && c.count <= minCount) ==>
                  Created(rs, pulses, ts, minCount, i + 1, found, before, ss))
            && (rs.priMin <= delta <= rs.priMax && c.count > minCount ==>
                  && Created(rs, pulses, ts, minCount, i + 1, found + [c], before, [c] + ss)
                  && |found| < |all| && all[..|found|] == found)
  {
    hide Candidate, Reversed;
    PushKeepsPrefix(found, Candidate(rs, pulses, i, ts), Candidates(rs, pulses, i + 1, ts, minCount));
    PushReversed(found, Candidate(rs, pulses, i, ts), before);
  }

  lemma {:induction false} ReversedPush<T(!new)>(found: seq<T>, x: T)
    ensures Reversed(found + [x]) == [x] + Reversed(found)
  {
    if found != [] {
      ReversedPush(found[1..], x);
      assert (found + [x])[1..] == found[1..] + [x];
    }
  }

  lemma PushKeepsPrefix<T>(found: seq<T>, x: T, rest: seq<T>)
    ensures found + [x] + rest == found + ([x] + rest)
    ensures (found + ([x] + rest))[..|found|] == found
  {
  }

  lemma PushReversed<T(!new)>(found: seq<T>, x: T, before: seq<T>)
    ensures Reversed(found + [x]) + before == [x] + (Reversed(found) + before)
  {
    ReversedPush(found, x);
    hide Reversed;
    assert [x] + Reversed(found) + before == [x] + (Reversed(found) + before);
  }

  lemma CreateEnd(rs: RadarSpec, pulses: seq<u64>, ts: u64, minCount: nat, i: nat,
                  found: seq<Sequence>, before: seq<Sequence>, ss: seq<Sequence>)
    requires Created(rs, pulses, ts, minCount, i, found, before, ss)
    requires i < |pulses| ==> rs.priMin <= Wrap32(ts - pulses[i]) && rs.priMax < Wrap32(ts - pulses[i])
    ensures var all := Candidates(rs, pulses, 0, ts, minCount);
            found == all && all[..|all|] == all && ss == Reversed(all) + before
  {
  }

  /** After taking k of n objects from the counters c0, they read c. */
  ghost predicate Taken(kmalloc: Kmalloc, calls0: nat, c0: Counters, n: nat, k: nat, calls: nat, c: Counters) {
    && k <= n
    && var (m, calls', c') := TakeMany(kmalloc, calls, c, n - k);
    TakeMany(kmalloc, calls0, c0, n) == (k + m, calls', c')
  }

  lemma TakeStart(kmalloc: Kmalloc, calls: nat, c: Counters, n: nat)
    ensures Taken(kmalloc, calls, c, n, 0, calls, c)
  {
  }

  lemma TakeStep(kmalloc: Kmalloc, calls0: nat, c0: Counters, n: nat, k: nat, calls: nat, c: Counters)
    requires Taken(kmalloc, calls0, c0, n, k, calls, c) && k < n
    ensures var (ok, calls', c') := Take(kmalloc, calls, c);
            if ok then Taken(kmalloc, calls0, c0, n, k + 1, calls', c')
            else TakeMany(kmalloc, calls0, c0, n) == (k, calls', c')
  {
  }

  lemma DetectionStep(rs: RadarSpec, ss: seq<Sequence>, i: nat)
    requires i < |ss|
    ensures CheckDetection(rs, ss[i..]) == if IsRadar(rs, ss[i]) then Some(ss[i]) else CheckDetection(rs, ss[i + 1..])
  {
    assert ss[i..][1..] == ss[i + 1..];
  }

  lemma NoDetection(rs: RadarSpec)
    ensures CheckDetection(rs, []) == None
  {
  }

  lemma TakeEnd(kmalloc: Kmalloc, calls0: nat, c0: Counters, n: nat, calls: nat, c: Counters)
    requires Taken(kmalloc, calls0, c0, n, n, calls, c)
    ensures TakeMany(kmalloc, calls0, c0, n) == (n, calls, c)
  {
  }
}
