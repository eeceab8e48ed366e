/** The pool counters always agree with what the detectors hold. */
module DfsAccounting {
  import opened MachineWords
  import opened DfsModel

  /** `detectors` live detectors hold `pulses` pulse objects and `seqs` sequence objects in all. */
  ghost predicate Accounts(p: Pools, detectors: int, pulses: int, seqs: int) {
    && p.references == p.poolReference == detectors
    && p.pulse.used == pulses && p.pulse.allocs == p.pulse.used + p.pulse.free
    && p.pseq.used == seqs && p.pseq.allocs == p.pseq.used + p.pseq.free
    && (detectors == 0 ==> p.pulse.free == p.pseq.free == 0)
  }

  lemma {:induction false} TakeManyAccounts(kmalloc: Kmalloc, calls: nat, c: Counters, n: nat)
    ensures var (k, _, c') := TakeMany(kmalloc, calls, c, n);
            c'.used == c.used + k && c'.allocs - c'.used - c'.free == c.allocs - c.used - c.free
    decreases n
  {
    if n > 0 {
      var (ok, calls', c') := Take(kmalloc, calls, c);
      if ok {
        TakeManyAccounts(kmalloc, calls', c', n - 1);
      }
    }
  }

  lemma {:induction false} ReversedLength<T(!new)>(s: seq<T>)
    ensures |Reversed(s)| == |s|
  {
    if s != [] {
      ReversedLength(s[1..]);
    }
  }

  lemma CreateAccounts(rs: RadarSpec, kmalloc: Kmalloc, d: Detector, p: Pools, ts: u64, minCount: nat,
                       n: int, pulses: int, seqs: int)
    requires rs.ppb >= 1 && n > 0 && Accounts(p, n, pulses, seqs + |d.seqs|)
    ensures var (_, d', p') := CreateSequences(rs, kmalloc, d, p, ts, minCount);
            d'.pulses == d.pulses && Accounts(p', n, pulses, seqs + |d'.seqs|)
  {
    hide Candidates;
    var found := Candidates(rs, d.pulses, 0, ts, minCount);
    TakeManyAccounts(kmalloc, p.calls, p.pseq, |found|);
    var k := TakeMany(kmalloc, p.calls, p.pseq, |found|).0;
    ReversedLength(found[..k]);
  }

  lemma EnqueueAccounts(rs: RadarSpec, kmalloc: Kmalloc, d: Detector, p: Pools, ts: u64, n: int, pulses: int, seqs: int)
    requires n > 0 && Accounts(p, n, pulses + |d.pulses|, seqs)
    ensures var (d', p') := Enqueue(rs, kmalloc, d, p, ts);
            d'.seqs == d.seqs && Accounts(p', n, pulses + |d'.pulses|, seqs)
  {
    hide Enqueued;
  }

  lemma ResetAccounts(d: Detector, p: Pools, ts: u64, n: int, pulses: int, seqs: int)
    requires n > 0 && Accounts(p, n, pulses + |d.pulses|, seqs + |d.seqs|)
    ensures Accounts(Reset(d, p, ts).1, n, pulses, seqs)
  {
  }

  /** Processing a pulse changes the counters by exactly what the detector's own holdings change, whatever
      the other detectors hold. */
  lemma AddPulseAccounts(rs: RadarSpec, kmalloc: Kmalloc, d: Detector, p: Pools, e: PulseEvent,
                         n: int, pulses: int, seqs: int)
    requires rs.ppb >= 1 && n > 0 && Accounts(p, n, pulses + |d.pulses|, seqs + |d.seqs|)
    ensures var o := AddPulse(rs, kmalloc, d, p, e);
            Accounts(o.pools, n, pulses + |o.det.pulses|, seqs + |o.det.seqs|)
  {
    hide Extend, MaxContinued, CreateSequences, Enqueue, Accepts, IsRadar;
    if Accepts(rs, d, e) {
      var d1 := d.(lastTs := e.ts, seqs := Extend(rs, d.seqs, e.ts), accepted := d.accepted + [e.ts]);
      var p1 := p.(pseq := Give(p.pseq, |d.seqs| - |d1.seqs|));
      var m := MaxContinued(rs, d.seqs, e.ts);
      var (ok, d2, p2) := CreateSequences(rs, kmalloc, d1, p1, e.ts, m);
      CreateAccounts(rs, kmalloc, d1, p1, e.ts, m, n, pulses + |d.pulses|, seqs);
      EnqueueAccounts(rs, kmalloc, d2, p2, e.ts, n, pulses, seqs + |d2.seqs|);
    }
  }

  /** The last detector to go empties the pools: everything allocated has been freed. */
  lemma ExitAccounts(d: Detector, p: Pools, n: int, pulses: int, seqs: int)
    requires n > 0 && Accounts(p, n, pulses + |d.pulses|, seqs + |d.seqs|)
    ensures Accounts(Deregister(Reset(d, p, 0).1), n - 1, pulses, seqs)
  {
  }

  /** With no detector left that holds anything, all counters but the error counts are zero. */
  lemma NothingLeft(p: Pools)
    requires Accounts(p, 0, 0, 0)
    ensures p.references == p.poolReference == 0
    ensures p.pulse == Counters(0, 0, 0, p.pulse.errors) && p.pseq == Counters(0, 0, 0, p.pseq.errors)
  {
  }
}
