/** What a detection means: the theorems about reported and live sequences, and where they stop holding. */
module DfsDetection {
  import opened MachineWords
  import opened DfsMultiple
  import opened DfsModel
  import opened DfsSoundness

  /** A report rests on enough accepted pulses, spaced as multiples of one PRI. */
  lemma DetectionIsSound(rs: RadarSpec, kmalloc: Kmalloc, d: Detector, p: Pools, e: PulseEvent)
    requires ValidSpec(rs) && Inv(rs, d) && InOrder(d, e.ts) && Recent(d, e.ts)
    requires AddPulse(rs, kmalloc, d, p, e).radar.Some?
    ensures var d', s := AddPulse(rs, kmalloc, d, p, e).det, AddPulse(rs, kmalloc, d, p, e).radar.value;
            && d'.accepted == d.accepted + [e.ts]
            && rs.widthMin <= e.width <= rs.widthMax && (rs.chirp ==> e.chirp)
            && s.count >= rs.ppbThresh && s.count * rs.numPri >= s.falses
            && exists ev :: Supports(rs, d', s, ev)
  {
    AddPulseKeepsInv(rs, kmalloc, d, p, e);
    hide QueueInv, Supports, Candidates, Extend, TakeMany;
    var d', s := AddPulse(rs, kmalloc, d, p, e).det, AddPulse(rs, kmalloc, d, p, e).radar.value;
    assert Supported(rs, d', s);
  }

  /** Every pulse a sequence is built from: queued ones in time order, then the creating one and all later ones. */
  ghost function Members(d: Detector, ev: Evidence): seq<u64>
    requires ev.lo <= ev.hi <= |d.queued| && ev.at <= |d.accepted|
  {
    d.queued[ev.lo..ev.hi] + d.accepted[ev.at..]
  }

  /** Conservation: hits and misses of a live sequence are together exactly the pulses from its first one
      to its base and from its creating one to now, and these are spaced by at least the tolerance. */
  lemma PulseConservation(rs: RadarSpec, d: Detector, s: Sequence, ev: Evidence)
    requires ValidSpec(rs) && QueueInv(rs, d) && Supports(rs, d, s, ev)
    ensures s.count + s.falses == |Members(d, ev)|
    ensures Spaced(Members(d, ev), rs.tolerance)
    ensures Members(d, ev)[0] == s.firstTs
  {
    hide NearMultiple, PastHits, PriToUse, Duration, Follow, WindowSize;
    var a, b, m := d.queued[ev.lo..ev.hi], d.accepted[ev.at..], Members(d, ev);
    assert a[|a| - 1] == d.queued[ev.hi - 1] && b[0] == d.accepted[ev.at];
    assert Spaced(a, rs.tolerance) && Spaced(b, rs.tolerance);
    forall i, j | 0 <= i < j < |m|
      ensures m[i] + rs.tolerance <= m[j]
    {
      if i < |a| <= j {
        assert m[i] == a[i] <= a[|a| - 1];
        assert m[j] == b[j - |a|] >= b[0];
      }
    }
  }

  ghost function Between(ts: seq<u64>, from: u64, to: u64): set<u64> {
    set t | t in ts && from <= t <= to
  }

  ghost function Elements(a: seq<u64>): set<u64> { set t | t in a }

  lemma ElementsPush(a: seq<u64>, t: u64)
    ensures Elements(a + [t]) == Elements(a) + {t}
  {
  }

  lemma {:induction false} SpacedIsDistinct(a: seq<u64>, gap: nat)
    requires Spaced(a, gap) && gap > 0
    ensures |Elements(a)| == |a|
  {
    if a != [] {
      var n := |a| - 1;
      assert Spaced(a[..n], gap) && a[n] !in Elements(a[..n]);
      SpacedIsDistinct(a[..n], gap);
      assert a == a[..n] + [a[n]];
      hide Spaced, Elements;
      ElementsPush(a[..n], a[n]);
    }
  }

  lemma SameSize(a: set<u64>, b: set<u64>)
    requires a <= b
    ensures |a| == |b| <==> a == b
  {
    assert b == a + (b - a);
  }

  /** The part lo..hi of a spaced history is what lies between its first and its last pulse. */
  lemma PartIsBetween(a: seq<u64>, gap: nat, lo: nat, hi: nat)
    requires Spaced(a, gap) && gap > 0 && lo < hi <= |a|
    ensures |Between(a, a[lo], a[hi - 1])| == hi - lo
  {
    var part := a[lo..hi];
    assert Spaced(part, gap);
    SpacedIsDistinct(part, gap);
    forall k | 0 <= k < |a| ensures a[lo] <= a[k] <= a[hi - 1] <==> lo <= k < hi {
    }
    assert forall k :: lo <= k < hi ==> part[k - lo] == a[k];
    assert Between(a, a[lo], a[hi - 1]) == Elements(part);
  }

  /** In terms of all accepted pulses: hits and misses are the pulses accepted from the first one to the base and
      from the creating one to now, exactly if every accepted pulse in between was queued. */
  lemma PulsesAccountedExactly(rs: RadarSpec, d: Detector, s: Sequence, ev: Evidence)
    requires ValidSpec(rs) && QueueInv(rs, d) && Supports(rs, d, s, ev)
    ensures var base, c := d.queued[ev.hi - 1], d.accepted[ev.at];
            s.count + s.falses == |Between(d.accepted, s.firstTs, base)| + |Between(d.accepted, c, d.lastTs)| <==>
            forall t :: t in d.accepted && s.firstTs <= t <= base ==> t in d.queued
  {
    PulseConservation(rs, d, s, ev);
    hide NearMultiple, PastHits, PriToUse, Duration, Follow, WindowSize, Spaced, IsNewestPart, Between;
    var base := d.queued[ev.hi - 1];
    PartIsBetween(d.queued, rs.tolerance, ev.lo, ev.hi);
    PartIsBetween(d.accepted, rs.tolerance, ev.at, |d.accepted|);
    SameBetween(d.queued, d.accepted, s.firstTs, base);
  }

  lemma SameBetween(queued: seq<u64>, accepted: seq<u64>, from: u64, to: u64)
    requires forall t | t in queued :: t in accepted
    ensures |Between(queued, from, to)| == |Between(accepted, from, to)| <==>
            forall t :: t in accepted && from <= t <= to ==> t in queued
  {
    var q, a := Between(queued, from, to), Between(accepted, from, to);
    SameSize(q, a);
    if q == a {
      forall t | t in accepted && from <= t <= to ensures t in queued {
        assert t in a;
      }
    }
  }

  /** All members of a sequence lie in its time window exactly if bursts have at least two pulses, a pulse came after
      the creating one, or the sequence is at most 32 microseconds long. Then their number is bounded by its
      duration; in particular its 32-bit counters cannot overflow. */
  lemma MembersFitWindow(rs: RadarSpec, d: Detector, s: Sequence, ev: Evidence)
    requires ValidSpec(rs) && QueueInv(rs, d) && Supports(rs, d, s, ev)
    ensures var fits := rs.ppb >= 2 || ev.at + 1 < |d.accepted| || d.lastTs - s.firstTs <= 32;
            && ((forall t | t in Members(d, ev) :: s.firstTs <= t <= s.firstTs + s.dur) <==> fits)
            && (fits ==> (s.count + s.falses - 1) * rs.tolerance <= s.dur)
  {
    PulseConservation(rs, d, s, ev);
    assert rs.ppb == 1 ==> s.dur == 32;
    assert d.lastTs == d.accepted[|d.accepted| - 1];
    hide NearMultiple, PastHits, PriToUse, Duration, Follow, QueueInv, Spaced;
    var m := Members(d, ev);
    assert m[|m| - 1] == d.accepted[|d.accepted| - 1] == d.lastTs;
    SpacedApart(m, rs.tolerance, 0, |m| - 1);
    assert m[|m| - 1] in m;
  }

  /** When does a new sequence lie in its own window? Exactly when bursts have at least two pulses, or its base is
      at most 32 microseconds old. A one-pulse burst type has a window of twice the tolerance only. */
  lemma NewSequenceInWindowExactly(rs: RadarSpec, d: Detector, i: nat, ts: u64)
    requires ValidSpec(rs) && JustAccepted(rs, d, ts) && IsBase(rs, d.pulses, i, ts)
    ensures var s := Candidate(rs, d.pulses, i, ts);
            ts <= s.firstTs + s.dur <==> rs.ppb >= 2 || ts - d.pulses[i] <= 32
  {
    PulsesBefore(rs, d, ts);
    DescendingQueue(rs, d);
    var lo := CandidateSpans(rs, d.pulses, d.queued, i, ts);
    var s := Candidate(rs, d.pulses, i, ts);
    assert d.queued[lo] <= d.queued[|d.queued| - i - 1];
    if rs.ppb == 1 {
      assert s.dur == 32;
      LookBackBounds(d.pulses[i + 1..], ts, s.pri, Wrap64(ts - s.dur), rs.tolerance, Lookback(2, 0, d.pulses[i]), 0);
    }
  }

  // ---------- where 32-bit distances go wrong ----------

  /** A queued pulse that passes the 32-bit distance test is a true base exactly when it is less than 2^32 old. */
  lemma TruncatedTestIsTrueExactly(rs: RadarSpec, pulse: u64, ts: u64)
    requires ValidSpec(rs) && pulse <= ts
    requires rs.priMin <= Wrap32(ts - pulse) <= rs.priMax
    ensures rs.priMin <= ts - pulse <= rs.priMax <==> ts - pulse < 0x1_0000_0000
  {
  }

  /** When every queued pulse but the newest accepted one is 2^32 microseconds old, no sequence at all can be
      accounted for. */
  lemma NothingSupported(rs: RadarSpec, d: Detector, s: Sequence)
    requires ValidSpec(rs) && QueueInv(rs, d) && d.accepted != []
    requires forall k :: 0 <= k < |d.queued| ==> d.queued[k] == d.lastTs || d.lastTs - d.queued[k] >= 0x1_0000_0000
    ensures !Supported(rs, d, s)
  {
    hide NearMultiple, PastHits, Duration, Follow, IsNewestPart, WindowSize;
    forall ev ensures !Supports(rs, d, s, ev) {
      if Supports(rs, d, s, ev) {
        DurationBound(rs, s.pri);
      }
    }
  }

  /** An old queue is still old after the pulse, whether that was queued or not. */
  lemma OldQueueStays(rs: RadarSpec, kmalloc: Kmalloc, d: Detector, p: Pools, e: PulseEvent)
    requires ValidSpec(rs) && QueueInv(rs, d) && InOrder(d, e.ts) && Accepts(rs, d, e) && !Recent(d, e.ts)
    ensures var d' := AddPulse(rs, kmalloc, d, p, e).det;
            d'.accepted == [] || (d'.lastTs == e.ts && forall k :: 0 <= k < |d'.queued| ==>
              d'.queued[k] == e.ts || e.ts - d'.queued[k] >= 0x1_0000_0000)
  {
    hide Candidates, Extend, MaxContinued, TakeMany, IsRadar, Enqueued, WindowSize;
    assert d.pulses[0] == d.queued[|d.queued| - 1];
    assert forall k :: 0 <= k < |d.queued| ==> d.queued[k] <= d.pulses[0];
  }

  /** When is a report sound? Exactly when the queue was recent, whatever forged sequences may be listed. */
  lemma ReportIsSoundExactly(rs: RadarSpec, kmalloc: Kmalloc, d: Detector, p: Pools, e: PulseEvent)
    requires ValidSpec(rs) && Inv(rs, d) && InOrder(d, e.ts)
    requires AddPulse(rs, kmalloc, d, p, e).radar.Some?
    ensures Supported(rs, AddPulse(rs, kmalloc, d, p, e).det, AddPulse(rs, kmalloc, d, p, e).radar.value) <==>
            Recent(d, e.ts)
  {
    var o := AddPulse(rs, kmalloc, d, p, e);
    assert Accepts(rs, d, e) && o.det.accepted == d.accepted + [e.ts];
    hide AddPulse, Inv, Supported, Accepts, Recent;
    AddPulseKeepsInv(rs, kmalloc, d, p, e);
    if !Recent(d, e.ts) {
      InvHasQueue(rs, d);
      InvHasQueue(rs, o.det);
      OldQueueStays(rs, kmalloc, d, p, e);
      NothingSupported(rs, o.det, o.radar.value);
    }
  }

  lemma InvHasQueue(rs: RadarSpec, d: Detector)
    requires rs.ppb >= 1 && Inv(rs, d)
    ensures QueueInv(rs, d)
  {
  }

  /** When are all listed sequences accounted for? After an accepted pulse exactly if the queue was recent or no
      sequence is left; a pulse that is not accepted changes nothing. */
  lemma AllSupportedExactly(rs: RadarSpec, kmalloc: Kmalloc, d: Detector, p: Pools, e: PulseEvent)
    requires ValidSpec(rs) && Inv(rs, d) && InOrder(d, e.ts)
    ensures AllSupported(rs, AddPulse(rs, kmalloc, d, p, e).det) <==>
            if Accepts(rs, d, e) then Recent(d, e.ts) || AddPulse(rs, kmalloc, d, p, e).det.seqs == []
            else AllSupported(rs, d)
  {
    var o := AddPulse(rs, kmalloc, d, p, e);
    assert !Accepts(rs, d, e) ==> o.det == d;
    hide AddPulse, Inv, Supported, Accepts, Recent;
    AddPulseKeepsInv(rs, kmalloc, d, p, e);
    if Accepts(rs, d, e) && !Recent(d, e.ts) && o.det.seqs != [] {
      InvHasQueue(rs, d);
      InvHasQueue(rs, o.det);
      OldQueueStays(rs, kmalloc, d, p, e);
      SequencesNeedPulses(rs, o.det);
      NothingSupported(rs, o.det, o.det.seqs[0]);
    }
  }

  lemma SequencesNeedPulses(rs: RadarSpec, d: Detector)
    requires QueueInv(rs, d) && d.seqs != []
    ensures d.accepted != []
  {
  }

  /** A single new sequence joins an empty list when the allocation succeeds. */
  lemma CreatesOne(rs: RadarSpec, kmalloc: Kmalloc, d: Detector, p: Pools, ts: u64, minCount: nat, c: Sequence)
    requires rs.ppb >= 1 && d.seqs == [] && kmalloc(p.calls)
    requires Candidates(rs, d.pulses, 0, ts, minCount) == [c]
    ensures CreateSequences(rs, kmalloc, d, p, ts, minCount).0
    ensures CreateSequences(rs, kmalloc, d, p, ts, minCount).1 == d.(seqs := [c])
  {
    hide Candidates;
    assert TakeMany(kmalloc, p.calls, p.pseq, 1).0 == 1;
    assert [c][..1] == [c] && Reversed([c]) == [c];
  }

  const CHIRP_SPEC := RadarSpec(5, 48, 105, 984, 2016, 1, 1, 1, 16, true)

  lemma ForgedCandidate(ts: u64)
    requires ts == 100 + 0x1_0000_0000 + 1500
    ensures Candidates(CHIRP_SPEC, [100], 0, ts, 0) == [Sequence(1500, 32, 2, 0, 100, ts, 132)]
  {
  }

  /** An input: two pulses more than 71 minutes apart are
      reported as radar when their distance modulo 2^32 falls into the PRI range. */
  lemma TruncationForgesDetection(kmalloc: Kmalloc, p: Pools)
    requires kmalloc(p.calls)
    ensures var d := Detector(100, [], [100], [100], [100]);
            var e := PulseEvent(100 + 0x1_0000_0000 + 1500, 5500, 60, true);
            && ValidSpec(CHIRP_SPEC) && Inv(CHIRP_SPEC, d) && InOrder(d, e.ts) && !Recent(d, e.ts)
            && AddPulse(CHIRP_SPEC, kmalloc, d, p, e).radar.Some?
  {
    hide Candidates, Supported, TakeMany, CreateSequences;
    var d := Detector(100, [], [100], [100], [100]);
    var ts: u64 := 100 + 0x1_0000_0000 + 1500;
    ForgedCandidate(ts);
    CreatesOne(CHIRP_SPEC, kmalloc, d.(lastTs := ts, accepted := [100] + [ts]), p.(pseq := Give(p.pseq, 0)), ts, 0,
               Sequence(1500, 32, 2, 0, 100, ts, 132));
  }
}
