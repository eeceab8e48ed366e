/** The queue of a detector as part of all pulses it has accepted. */
module DfsHistory {
  import opened Options
  import opened MachineWords
  import opened DfsModel
  import opened DfsSoundness

  /** The queue is the newest part of the accepted pulses, newest first, up to and including the last one. */
  ghost predicate WholeQueue(d: Detector) {
    IsNewestPart(d.pulses, d.accepted) && UpToDate(d)
  }

  /** The newest queued pulse is the last accepted one. */
  ghost predicate UpToDate(d: Detector) {
    d.accepted != [] ==> d.pulses != [] && d.pulses[0] == d.lastTs
  }

  /** A queued pulse makes the queue whole up to now; a pulse that could not be queued leaves it behind. */
  lemma EnqueueWholeExactly(rs: RadarSpec, kmalloc: Kmalloc, d: Detector, p: Pools, ts: u64)
    requires ValidSpec(rs) && JustAccepted(rs, d, ts)
    requires IsNewestPart(d.pulses, d.accepted[..|d.accepted| - 1])
    ensures var (d', p') := Enqueue(rs, kmalloc, d, p, ts);
            && (WholeQueue(d') <==> p'.pulse.errors == p.pulse.errors) && (WholeQueue(d') <==> UpToDate(d'))
            && p'.pulse.errors >= p.pulse.errors
  {
    hide Enqueued, QueueInv, IsNewestPart;
    LastAccepted(rs, d, ts);
    DescendingQueue(rs, d);
    hide JustAccepted, ValidSpec;
    EnqueuedShape(rs, d.pulses, ts);
    PushNewest(d.pulses, d.accepted[..|d.accepted| - 1], Enqueued(rs, d.pulses, ts), ts);
  }

  lemma LastAccepted(rs: RadarSpec, d: Detector, ts: u64)
    requires ValidSpec(rs) && JustAccepted(rs, d, ts)
    ensures QueueInv(rs, d) && d.lastTs == ts && d.accepted != [] && d.accepted == d.accepted[..|d.accepted| - 1] + [ts]
    ensures |d.pulses| <= 2 * rs.ppb - 1 && forall j :: 0 <= j < |d.pulses| ==> d.pulses[j] < ts
  {
    PulsesBefore(rs, d, ts);
  }

  /** After a pulse that reports nothing the queue is whole, and its newest element is the last time stamp, exactly if
      no allocation of a queue element failed. */
  lemma WholeQueueExactly(rs: RadarSpec, kmalloc: Kmalloc, d: Detector, p: Pools, e: PulseEvent)
    requires ValidSpec(rs) && QueueInv(rs, d) && InOrder(d, e.ts) && WholeQueue(d)
    ensures var o := AddPulse(rs, kmalloc, d, p, e);
            && o.pools.pulse.errors >= p.pulse.errors
            && (o.radar == None ==> (WholeQueue(o.det) <==> o.pools.pulse.errors == p.pulse.errors))
            && (o.radar == None ==> (WholeQueue(o.det) <==> UpToDate(o.det)))
            && (o.radar.Some? ==> o.pools.pulse.errors == p.pulse.errors)
  {
    hide QueueInv, JustAccepted, Candidates, Extend, MaxContinued, TakeMany, Enqueue, Accepts, IsRadar, IsNewestPart;
    if Accepts(rs, d, e) {
      AcceptKeepsQueue(rs, d, e);
      var d0 := d.(lastTs := e.ts, accepted := d.accepted + [e.ts]);
      var d1 := d0.(seqs := Extend(rs, d.seqs, e.ts));
      var p1 := p.(pseq := Give(p.pseq, |d.seqs| - |d1.seqs|));
      var (ok, d2, p2) := CreateSequences(rs, kmalloc, d1, p1, e.ts, MaxContinued(rs, d.seqs, e.ts));
      QueueIgnoresList(rs, d0, d2.seqs, e.ts);
      assert d2.accepted[..|d2.accepted| - 1] == d.accepted;
      EnqueueWholeExactly(rs, kmalloc, d2, p2, e.ts);
      ResetIsWhole(d2, p2, e.ts);
    }
  }

  lemma ResetIsWhole(d: Detector, p: Pools, ts: u64)
    ensures WholeQueue(Reset(d, p, ts).0) && Reset(d, p, ts).1.pulse.errors == p.pulse.errors
  {
  }
}
