/** What a detector state means in terms of the pulses seen, and that every pulse keeps it so. */
module DfsSoundness {
  import opened MachineWords
  import opened DfsMultiple
  import opened DfsModel

  // ---------- the queue invariant ----------

  /** Strictly increasing with gaps of at least `gap`. */
  ghost predicate Spaced(a: seq<u64>, gap: nat) {
    forall i, j :: 0 <= i < j < |a| ==> a[i] + gap <= a[j]
  }

  /** The queue is the newest part of the log of queued pulses, newest first. */
  ghost predicate IsNewestPart(pulses: seq<u64>, queued: seq<u64>) {
    && |pulses| <= |queued|
    && forall i :: 0 <= i < |pulses| ==> pulses[i] == queued[|queued| - 1 - i]
  }

  ghost predicate QueueInv(rs: RadarSpec, d: Detector) {
    && IsNewestPart(d.pulses, d.queued)
    && Spaced(d.accepted, rs.tolerance)
    && Spaced(d.queued, rs.tolerance)
    && (forall t | t in d.queued :: t in d.accepted)
    && (d.accepted != [] ==> d.accepted[|d.accepted| - 1] == d.lastTs)
    && (d.queued != [] ==> d.pulses != [])
    && (d.pulses != [] ==> d.pulses[0] - d.pulses[|d.pulses| - 1] <= WindowSize(rs))
    && |d.pulses| <= 2 * rs.ppb - 1
    && (d.accepted == [] ==> d.queued == [] && d.seqs == [])
  }

  /** Time only moves forward for a detector that holds pulses; an empty one accepts any time. */
  ghost predicate InOrder(d: Detector, ts: u64) {
    d.accepted == [] || d.lastTs <= ts
  }

  // ---------- evidence for a sequence ----------

  /** Which pulses a sequence is built from: queued[lo..hi] were searched when accepted[at] created it. */
  datatype Evidence = Evidence(lo: nat, hi: nat, at: nat)

  /** How many of these pulses lie near a positive multiple of `pri` before `c`. */
  ghost function PastHits(q: seq<u64>, c: u64, pri: nat, tolerance: nat): (n: nat)
    ensures n <= |q|
  {
    if q == [] then 0
    else PastHits(q[1..], c, pri, tolerance) + if NearMultiple(c - q[0], pri, tolerance) then 1 else 0
  }

  /** Hits among the pulses after c, and the last hit: each is matched against the hit before it. */
  ghost function Follow(c: u64, later: seq<u64>, pri: nat, tolerance: nat): (r: (nat, u64))
    ensures r.0 <= |later|
  {
    if later == [] then (0, c)
    else
      var t, (n, last) := later[|later| - 1], Follow(c, later[..|later| - 1], pri, tolerance);
      if NearMultiple(t - last, pri, tolerance) then (n + 1, t) else (n, last)
  }

  /** The evidence accounts for every field of the sequence. */
  ghost predicate Supports(rs: RadarSpec, d: Detector, s: Sequence, ev: Evidence)
    requires rs.ppb >= 1
  {
    && ev.lo < ev.hi <= |d.queued| && ev.at < |d.accepted|
    && var c, p, now := d.accepted[ev.at], d.queued[ev.hi - 1], d.accepted[|d.accepted| - 1];
    var past := PastHits(d.queued[ev.lo..ev.hi], c, s.pri, rs.tolerance);
    var (hits, last) := Follow(c, d.accepted[ev.at + 1..], s.pri, rs.tolerance);
    && p + rs.tolerance <= c
    && rs.priMin <= c - p <= rs.priMax
    && s.pri == PriToUse(rs, c - p)
    && s.dur == Duration(rs, s.pri)
    && s.firstTs == d.queued[ev.lo]
    && NearMultiple(c - s.firstTs, s.pri, rs.tolerance)
    && NearMultiple(c - p, s.pri, rs.tolerance)
    && s.lastTs == last
    && s.count == past + 1 + hits
    && s.falses == (ev.hi - ev.lo - past) + (|d.accepted| - ev.at - 1 - hits)
    && s.deadline <= s.firstTs + s.dur
    && (rs.ppb >= 2 || ev.at + 1 < |d.accepted| ==> now <= s.firstTs + s.dur)
  }

  ghost predicate Supported(rs: RadarSpec, d: Detector, s: Sequence)
    requires rs.ppb >= 1
  {
    exists ev :: Supports(rs, d, s, ev)
  }

  ghost predicate AllSupported(rs: RadarSpec, d: Detector)
    requires rs.ppb >= 1
  {
    forall s | s in d.seqs :: Supported(rs, d, s)
  }

  /** Every sequence is accounted for, or is past its deadline and will be dropped by the next accepted pulse. */
  ghost predicate AllSupportedOrExpired(rs: RadarSpec, d: Detector)
    requires rs.ppb >= 1
  {
    forall s | s in d.seqs :: Supported(rs, d, s) || s.deadline < d.lastTs
  }

  /** No 32-bit truncation: the newest queued pulse is less than 2^32 microseconds old. */
  ghost predicate Recent(d: Detector, ts: u64) {
    d.pulses == [] || ts - d.pulses[0] < 0x1_0000_0000
  }

  // ---------- bounds ----------

  lemma ProductBound(a: nat, b: nat, x: nat, y: nat)
    requires a <= x && b <= y
    ensures a * b <= x * y
  {
  }

  lemma WindowBound(rs: RadarSpec)
    requires ValidSpec(rs)
    ensures WindowSize(rs) <= 0xFFFF * 0xFF * 0xFF
  {
    ProductBound(rs.priMax, rs.ppb, 0xFFFF, 0xFF);
    ProductBound(rs.priMax * rs.ppb, rs.numPri, 0xFFFF * 0xFF, 0xFF);
  }

  lemma DurationBound(rs: RadarSpec, pri: nat)
    requires ValidSpec(rs) && pri <= 0xFFFF
    ensures Duration(rs, pri) <= 0xFFFF * 0xFE + 32
    ensures rs.ppb >= 2 ==> Duration(rs, pri) >= pri + 32
  {
    ProductBound(pri, rs.ppb - 1, 0xFFFF, 0xFE);
    if rs.ppb >= 2 {
      assert pri * (rs.ppb - 1) == pri * (rs.ppb - 2) + pri;
      ProductBound(0, 0, pri, rs.ppb - 2);
    }
  }

  /** With n gaps between them, pulses are at least n tolerances apart. */
  lemma {:induction false} SpacedApart(a: seq<u64>, gap: nat, i: nat, j: nat)
    requires Spaced(a, gap) && i <= j < |a|
    ensures a[i] + (j - i) * gap <= a[j]
    decreases j - i
  {
    if i < j {
      SpacedApart(a, gap, i, j - 1);
      assert (j - i) * gap == (j - 1 - i) * gap + gap;
    }
  }

  // ---------- creating sequences ----------

  /** One step of the search looks at the next older pulse only. */
  lemma LookBackStep(older: seq<u64>, ts: u64, pri: nat, minValid: u64, tolerance: nat, acc: Lookback, pending: nat)
    requires older != [] && older[0] >= minValid
    requires 0 <= ts - older[0] < 0x1_0000_0000
    ensures LookBack(older, ts, pri, minValid, tolerance, acc, pending) ==
            if NearMultiple(ts - older[0], pri, tolerance)
            then LookBack(older[1..], ts, pri, minValid, tolerance,
                          Lookback(acc.count + 1, acc.falses + pending, older[0]), 0)
            else LookBack(older[1..], ts, pri, minValid, tolerance, acc, pending + 1)
  {
    GetMultipleDecides(ts - older[0], pri, tolerance);
  }

  /** The sequence so far spans queued[m..hi]; all its hits and misses are counted. */
  ghost predicate Spans(queued: seq<u64>, m: nat, hi: nat, ts: u64, pri: nat, tolerance: nat, acc: Lookback) {
    && m < hi <= |queued|
    && var hits := PastHits(queued[m..hi], ts, pri, tolerance);
    acc == Lookback(1 + hits, hi - m - hits, queued[m])
  }

  ghost predicate NoHits(queued: seq<u64>, lo: nat, hi: nat, ts: u64, pri: nat, tolerance: nat)
    requires hi <= |queued|
  {
    forall j :: lo <= j < hi ==> !NearMultiple(ts - queued[j], pri, tolerance)
  }

  /** `older` is the end of queued[..top], newest first. */
  ghost predicate Backwards(older: seq<u64>, queued: seq<u64>, top: nat, ts: u64) {
    && |older| <= top <= |queued|
    && forall j :: 0 <= j < |older| ==> older[j] == queued[top - 1 - j] && older[j] <= ts
  }

  lemma BackwardsStep(older: seq<u64>, queued: seq<u64>, top: nat, ts: u64)
    requires Backwards(older, queued, top, ts) && older != []
    ensures Backwards(older[1..], queued, top - 1, ts) && older[0] == queued[top - 1]
  {
  }

  /** What the border of the search window guarantees. */
  ghost predicate IsBorder(minValid: u64, ts: u64, dur: nat) {
    dur < 0x1_0000_0000 && (minValid <= ts ==> ts - minValid <= dur)
  }

  /** The search through older pulses. The sequence so far spans queued[m..hi], and queued[top..m] are
      its pending misses. The search extends the span down to `lo`, inside the time window, and counts its
      hits and misses exactly. */
  lemma {:induction false} LookBackCounts(
      queued: seq<u64>, hi: nat, m: nat, top: nat, older: seq<u64>, ts: u64, pri: nat, dur: nat,
      minValid: u64, tolerance: nat, acc: Lookback) returns (lo: nat)
    requires Backwards(older, queued, top, ts) && top <= m < hi <= |queued|
    requires IsBorder(minValid, ts, dur)
    requires NoHits(queued, top, m, ts, pri, tolerance)
    requires Spans(queued, m, hi, ts, pri, tolerance, acc)
    ensures lo <= m
    ensures lo < m ==> NearMultiple(ts - queued[lo], pri, tolerance) && ts - queued[lo] <= dur
    ensures Spans(queued, lo, hi, ts, pri, tolerance, LookBack(older, ts, pri, minValid, tolerance, acc, m - top))
    decreases |older|
  {
    hide NearMultiple, GetMultiple;
    if older == [] || older[0] < minValid {
      lo := m;
    } else {
      var t := top - 1;
      BackwardsStep(older, queued, top, ts);
      LookBackStep(older, ts, pri, minValid, tolerance, acc, m - top);
      if NearMultiple(ts - queued[t], pri, tolerance) {
        MissesThenHit(queued, t, m, hi, ts, pri, tolerance);
        var acc' := Lookback(acc.count + 1, acc.falses + (m - top), older[0]);
        lo := LookBackCounts(queued, hi, t, t, older[1..], ts, pri, dur, minValid, tolerance, acc');
      } else {
        lo := LookBackCounts(queued, hi, m, t, older[1..], ts, pri, dur, minValid, tolerance, acc);
      }
    }
  }

  /** The search misses nothing: older pulses inside the time window and before the first one counted
      do not match. */
  lemma {:induction false} LookBackIsExhaustive(
      older: seq<u64>, ts: u64, pri: nat, dur: nat, minValid: u64, tolerance: nat, acc: Lookback, pending: nat)
    requires forall i, j :: 0 <= i < j < |older| ==> older[i] > older[j]
    requires forall j :: 0 <= j < |older| ==> older[j] < acc.firstTs <= ts
    requires IsBorder(minValid, ts, dur)
    ensures LookBack(older, ts, pri, minValid, tolerance, acc, pending).firstTs <= acc.firstTs
    ensures forall j :: 0 <= j < |older| && minValid <= older[j] &&
                        older[j] < LookBack(older, ts, pri, minValid, tolerance, acc, pending).firstTs ==>
              !NearMultiple(ts - older[j], pri, tolerance)
    decreases |older|
  {
    hide NearMultiple, GetMultiple;
    if older != [] && older[0] >= minValid {
      LookBackStep(older, ts, pri, minValid, tolerance, acc, pending);
      var hit := NearMultiple(ts - older[0], pri, tolerance);
      var acc' := if hit then Lookback(acc.count + 1, acc.falses + pending, older[0]) else acc;
      var pending' := if hit then 0 else pending + 1;
      LookBackIsExhaustive(older[1..], ts, pri, dur, minValid, tolerance, acc', pending');
    }
  }

  lemma {:induction false} MissesThenHit(q: seq<u64>, t: nat, m: nat, hi: nat, ts: u64, pri: nat, tolerance: nat)
    requires t < m <= hi <= |q|
    requires NearMultiple(ts - q[t], pri, tolerance)
    requires NoHits(q, t + 1, m, ts, pri, tolerance)
    ensures PastHits(q[t..hi], ts, pri, tolerance) == 1 + PastHits(q[m..hi], ts, pri, tolerance)
  {
    assert q[t..hi][1..] == q[t + 1..hi];
    MissesAdd(q, t + 1, m, hi, ts, pri, tolerance);
  }

  lemma {:induction false} MissesAdd(q: seq<u64>, t: nat, m: nat, hi: nat, ts: u64, pri: nat, tolerance: nat)
    requires t <= m <= hi <= |q|
    requires NoHits(q, t, m, ts, pri, tolerance)
    ensures PastHits(q[t..hi], ts, pri, tolerance) == PastHits(q[m..hi], ts, pri, tolerance)
    decreases m - t
  {
    if t < m {
      assert q[t..hi][1..] == q[t + 1..hi];
      MissesAdd(q, t + 1, m, hi, ts, pri, tolerance);
    }
  }

  /** Pulse number i of the queue is a fit base for a new sequence at `ts`. */
  ghost predicate IsBase(rs: RadarSpec, pulses: seq<u64>, i: nat, ts: u64) {
    i < |pulses| && rs.priMin <= ts - pulses[i] <= rs.priMax
  }

  /** State right after `ts` was accepted but before it is queued. */
  ghost predicate JustAccepted(rs: RadarSpec, d: Detector, ts: u64) {
    && QueueInv(rs, d)
    && d.accepted != [] && d.lastTs == ts
    && (d.queued != [] ==> d.queued[|d.queued| - 1] + rs.tolerance <= ts)
  }

  lemma BaseMatches(rs: RadarSpec, delta: nat)
    requires ValidSpec(rs) && rs.priMin <= delta <= rs.priMax && delta >= rs.tolerance
    ensures var pri := PriToUse(rs, delta);
            pri <= 0xFFFF && delta <= pri + 16 && NearMultiple(delta, pri, rs.tolerance)
  {
    assert WithinTolerance(delta, 1, PriToUse(rs, delta), rs.tolerance);
  }

  lemma BorderIsSound(ts: u64, dur: nat)
    requires dur < 0x1_0000_0000
    ensures IsBorder(Wrap64(ts - dur), ts, dur)
  {
  }

  /** A queue that is the newest part of the log, seen from queue position i + 1 on. */
  lemma QueueIsBackwards(pulses: seq<u64>, queued: seq<u64>, i: nat, ts: u64)
    requires IsNewestPart(pulses, queued) && i < |pulses|
    requires forall j :: 0 <= j < |pulses| ==> pulses[j] <= ts
    ensures Backwards(pulses[i + 1..], queued, |queued| - i - 1, ts)
  {
  }

  /** A new sequence spans queued[lo..hi], where hi - 1 is the place of its base in the log. */
  lemma CandidateSpans(rs: RadarSpec, pulses: seq<u64>, queued: seq<u64>, i: nat, ts: u64) returns (lo: nat)
    requires ValidSpec(rs) && IsNewestPart(pulses, queued) && IsBase(rs, pulses, i, ts)
    requires forall j :: 0 <= j < |pulses| ==> pulses[j] + rs.tolerance <= ts
    ensures var s, hi := Candidate(rs, pulses, i, ts), |queued| - i;
            && lo < hi && Spans(queued, lo, hi, ts, s.pri, rs.tolerance, Lookback(s.count, s.falses, s.firstTs))
            && NearMultiple(ts - queued[hi - 1], s.pri, rs.tolerance)
            && NearMultiple(ts - queued[lo], s.pri, rs.tolerance)
            && queued[hi - 1] == pulses[i]
            && s.pri == PriToUse(rs, ts - queued[hi - 1]) && s.dur == Duration(rs, s.pri) && s.lastTs == ts
            && s.deadline <= s.firstTs + s.dur
            && (rs.ppb >= 2 ==> ts <= s.firstTs + s.dur)
  {
    hide NearMultiple, GetMultiple, Candidate, LookBack, PriToUse, Duration, Wrap64, WindowSize;
    var base, hi := pulses[i], |queued| - i;
    var pri := PriToUse(rs, ts - base);
    var dur := Duration(rs, pri);
    BaseMatches(rs, ts - base);
    DurationBound(rs, pri);
    BorderIsSound(ts, dur);
    QueueIsBackwards(pulses, queued, i, ts);
    SpansBase(queued, hi, ts, pri, rs.tolerance);
    lo := LookBackCounts(queued, hi, hi - 1, hi - 1, pulses[i + 1..], ts, pri, dur, Wrap64(ts - dur),
                         rs.tolerance, Lookback(2, 0, base));
    CandidateUnfolds(rs, pulses, i, ts);
  }

  lemma SpansBase(queued: seq<u64>, hi: nat, ts: u64, pri: nat, tolerance: nat)
    requires 0 < hi <= |queued| && NearMultiple(ts - queued[hi - 1], pri, tolerance)
    ensures Spans(queued, hi - 1, hi, ts, pri, tolerance, Lookback(2, 0, queued[hi - 1]))
  {
  }

  /** A new sequence at a distance that needs no truncation. */
  lemma CandidateUnfolds(rs: RadarSpec, pulses: seq<u64>, i: nat, ts: u64)
    requires rs.ppb >= 1 && i < |pulses| && 0 <= ts - pulses[i] < 0x1_0000_0000
    ensures var s, pri := Candidate(rs, pulses, i, ts), PriToUse(rs, ts - pulses[i]);
            var dur := Duration(rs, pri);
            && s.pri == pri && s.dur == dur && s.lastTs == ts && s.deadline <= s.firstTs + s.dur
            && Lookback(s.count, s.falses, s.firstTs) ==
               LookBack(pulses[i + 1..], ts, pri, Wrap64(ts - dur), rs.tolerance, Lookback(2, 0, pulses[i]), 0)
  {
  }

  /** A new sequence is supported, and lies in its own time window whenever bursts have two pulses or more. */
  lemma CandidateSupported(rs: RadarSpec, d: Detector, i: nat, ts: u64)
    requires ValidSpec(rs) && JustAccepted(rs, d, ts) && IsBase(rs, d.pulses, i, ts)
    ensures Supported(rs, d, Candidate(rs, d.pulses, i, ts))
  {
    hide NearMultiple, Candidate, PriToUse, Duration, Spans;
    PulsesBefore(rs, d, ts);
    var lo := CandidateSpans(rs, d.pulses, d.queued, i, ts);
    NewSupports(rs, d, ts, lo, |d.queued| - i, Candidate(rs, d.pulses, i, ts));
  }

  /** The conditions under which a sequence created just now is supported. */
  lemma NewSupports(rs: RadarSpec, d: Detector, ts: u64, lo: nat, hi: nat, s: Sequence)
    requires rs.ppb >= 1
    requires lo < hi <= |d.queued| && d.accepted != [] && d.accepted[|d.accepted| - 1] == ts
    requires rs.priMin <= ts - d.queued[hi - 1] <= rs.priMax && d.queued[hi - 1] + rs.tolerance <= ts
    requires s.pri == PriToUse(rs, ts - d.queued[hi - 1]) && s.dur == Duration(rs, s.pri)
    requires NearMultiple(ts - d.queued[hi - 1], s.pri, rs.tolerance)
    requires NearMultiple(ts - d.queued[lo], s.pri, rs.tolerance)
    requires Spans(d.queued, lo, hi, ts, s.pri, rs.tolerance, Lookback(s.count, s.falses, s.firstTs))
    requires s.lastTs == ts && s.deadline <= s.firstTs + s.dur
    requires rs.ppb >= 2 ==> ts <= s.firstTs + s.dur
    ensures Supported(rs, d, s)
  {
    hide NearMultiple, PriToUse, Duration;
    assert d.accepted[|d.accepted| - 1 + 1..] == [];
    assert Supports(rs, d, s, Evidence(lo, hi, |d.accepted| - 1));
  }

  lemma PulsesBefore(rs: RadarSpec, d: Detector, ts: u64)
    requires JustAccepted(rs, d, ts)
    ensures forall j :: 0 <= j < |d.pulses| ==> d.pulses[j] + rs.tolerance <= ts
  {
  }

  ghost predicate BuiltOn(rs: RadarSpec, pulses: seq<u64>, ts: u64, s: Sequence, k: nat)
    requires rs.ppb >= 1
  {
    IsBase(rs, pulses, k, ts) && s == Candidate(rs, pulses, k, ts)
  }

  /** Every new sequence is built on a queued pulse at a true distance within the PRI range. */
  lemma {:induction false} CandidatesHaveBases(rs: RadarSpec, pulses: seq<u64>, i: nat, ts: u64, minCount: nat)
    requires rs.ppb >= 1 && i <= |pulses|
    requires forall j :: i <= j < |pulses| ==> 0 <= ts - pulses[j] < 0x1_0000_0000
    ensures forall s | s in Candidates(rs, pulses, i, ts, minCount) :: exists k: nat :: BuiltOn(rs, pulses, ts, s, k)
    decreases |pulses| - i
  {
    hide Candidate;
    if i < |pulses| {
      CandidatesHaveBases(rs, pulses, i + 1, ts, minCount);
      if rs.priMin <= ts - pulses[i] <= rs.priMax {
        assert BuiltOn(rs, pulses, ts, Candidate(rs, pulses, i, ts), i);
      }
    }
  }

  /** If the queue head is within reach of the PRI range, no queued pulse is old enough to be truncated. */
  lemma NothingTruncated(rs: RadarSpec, d: Detector, ts: u64)
    requires ValidSpec(rs) && JustAccepted(rs, d, ts)
    requires d.pulses != [] && ts - d.pulses[0] <= rs.priMax
    ensures forall j :: 0 <= j < |d.pulses| ==> 0 <= ts - d.pulses[j] < 0x1_0000_0000
  {
    WindowBound(rs);
    PulsesBefore(rs, d, ts);
    var last := |d.pulses| - 1;
    forall j | 0 <= j < |d.pulses|
      ensures 0 <= ts - d.pulses[j] < 0x1_0000_0000
    {
      assert d.pulses[j] == d.queued[|d.queued| - 1 - j];
      assert d.pulses[last] == d.queued[|d.queued| - 1 - last];
    }
  }

  /** With a recent queue head the loop either stops at once or sees only true distances. */
  lemma NewSequencesSupported(rs: RadarSpec, d: Detector, ts: u64, minCount: nat)
    requires ValidSpec(rs) && JustAccepted(rs, d, ts) && Recent(d, ts)
    ensures forall s | s in Candidates(rs, d.pulses, 0, ts, minCount) :: Supported(rs, d, s)
  {
    hide Candidate, Supported, QueueInv, WindowSize;
    if d.pulses != [] && ts - d.pulses[0] <= rs.priMax {
      NothingTruncated(rs, d, ts);
      CandidatesHaveBases(rs, d.pulses, 0, ts, minCount);
      forall s | s in Candidates(rs, d.pulses, 0, ts, minCount)
        ensures Supported(rs, d, s)
      {
        var k: nat :| BuiltOn(rs, d.pulses, ts, s, k);
        CandidateSupported(rs, d, k, ts);
      }
    } else {
      PulsesBefore(rs, d, ts);
      assert Candidates(rs, d.pulses, 0, ts, minCount) == [];
    }
  }

  lemma ReachBound(rs: RadarSpec, delta: nat, first: u64)
    requires ValidSpec(rs) && delta <= rs.priMax
    ensures Wrap64(first + Duration(rs, PriToUse(rs, delta))) < first + 0x1_0000_0000
  {
    DurationBound(rs, PriToUse(rs, delta));
    hide Duration;
  }

  /** The first pulse of a new sequence is a queued one, and its deadline is at most one duration later. */
  lemma CandidateReach(rs: RadarSpec, pulses: seq<u64>, i: nat, ts: u64)
    requires ValidSpec(rs) && i < |pulses| && Wrap32(ts - pulses[i]) <= rs.priMax
    ensures var s := Candidate(rs, pulses, i, ts);
            s.firstTs in pulses && s.deadline < s.firstTs + 0x1_0000_0000
  {
    hide LookBack, Duration, PriToUse, Wrap32, Wrap64;
    var pri := PriToUse(rs, Wrap32(ts - pulses[i]));
    LookBackBounds(pulses[i + 1..], ts, pri, Wrap64(ts - Duration(rs, pri)), rs.tolerance,
                   Lookback(2, 0, pulses[i]), 0);
    ReachBound(rs, Wrap32(ts - pulses[i]), Candidate(rs, pulses, i, ts).firstTs);
    assert forall x | x in pulses[i + 1..] :: x in pulses;
  }

  /** What an old queue leads to is past its deadline at once. */
  lemma {:induction false} OldCandidates(rs: RadarSpec, pulses: seq<u64>, i: nat, ts: u64, minCount: nat)
    requires ValidSpec(rs) && i <= |pulses| && forall x | x in pulses :: x + 0x1_0000_0000 <= ts
    ensures forall s | s in Candidates(rs, pulses, i, ts, minCount) :: s.deadline < ts
    decreases |pulses| - i
  {
    hide Candidate, ValidSpec, Wrap32;
    if i < |pulses| {
      OldCandidates(rs, pulses, i + 1, ts, minCount);
      if Wrap32(ts - pulses[i]) <= rs.priMax {
        CandidateReach(rs, pulses, i, ts);
      }
    }
  }

  lemma OldQueue(rs: RadarSpec, d: Detector, ts: u64)
    requires QueueInv(rs, d) && !Recent(d, ts)
    ensures forall x | x in d.pulses :: x + 0x1_0000_0000 <= ts
  {
    DescendingQueue(rs, d);
  }

  // ---------- extending sequences ----------

  /** What survives of the list is exactly the unexpired sequences, each accounted for the new pulse. */
  lemma {:induction false} ExtendMembers(rs: RadarSpec, ss: seq<Sequence>, ts: u64)
    ensures forall s' :: s' in Extend(rs, ss, ts) <==>
              exists s :: s in ss && ts <= s.deadline && s' == Touch(rs, s, ts)
  {
    if ss != [] {
      var n := |ss| - 1;
      ExtendMembers(rs, ss[..n], ts);
      assert ss == ss[..n] + [ss[n]];
    }
  }

  lemma {:induction false} FollowStays(c: u64, later: seq<u64>, pri: nat, tolerance: nat, now: u64)
    requires c <= now && forall j :: 0 <= j < |later| ==> c <= later[j] <= now
    ensures c <= Follow(c, later, pri, tolerance).1 <= now
  {
    if later != [] {
      FollowStays(c, later[..|later| - 1], pri, tolerance, now);
    }
  }

  /** The last hit of a sequence lies between its first pulse and the newest accepted pulse. */
  lemma LastHitInRange(rs: RadarSpec, d: Detector, s: Sequence, ev: Evidence)
    requires ValidSpec(rs) && QueueInv(rs, d) && Supports(rs, d, s, ev)
    ensures s.firstTs <= s.lastTs <= d.lastTs
    ensures s.pri <= 0xFFFF
  {
    hide NearMultiple, PastHits, Duration;
    var c, later := d.accepted[ev.at], d.accepted[ev.at + 1..];
    forall j | 0 <= j < |later|
      ensures c <= later[j] <= d.lastTs
    {
      assert later[j] == d.accepted[ev.at + 1 + j];
    }
    FollowStays(c, later, s.pri, rs.tolerance, d.lastTs);
  }

  lemma TouchMeans(rs: RadarSpec, s: Sequence, ts: u64)
    requires 0 <= ts - s.lastTs < 0x1_0000_0000
    ensures Touch(rs, s, ts) == if NearMultiple(ts - s.lastTs, s.pri, rs.tolerance)
                                then s.(lastTs := ts, count := s.count + 1) else s.(falses := s.falses + 1)
  {
    GetMultipleDecides(ts - s.lastTs, s.pri, rs.tolerance);
  }

  lemma FollowStep(c: u64, accepted: seq<u64>, at: nat, pri: nat, tolerance: nat, t: u64)
    requires at < |accepted|
    ensures var (n, last) := Follow(c, accepted[at + 1..], pri, tolerance);
            Follow(c, (accepted + [t])[at + 1..], pri, tolerance) ==
            if NearMultiple(t - last, pri, tolerance) then (n + 1, t) else (n, last)
  {
    hide NearMultiple;
    var later := (accepted + [t])[at + 1..];
    assert later == accepted[at + 1..] + [t];
    assert later[..|later| - 1] == accepted[at + 1..];
  }

  /** A supported sequence that has not expired is still supported after one more accepted pulse. */
  lemma TouchSupported(rs: RadarSpec, d: Detector, s: Sequence, ts: u64)
    requires ValidSpec(rs) && QueueInv(rs, d) && Supported(rs, d, s) && d.lastTs <= ts <= s.deadline
    ensures Supported(rs, d.(accepted := d.accepted + [ts], lastTs := ts), Touch(rs, s, ts))
  {
    hide NearMultiple, PastHits, GetMultiple, PriToUse, Touch, Follow;
    var ev :| Supports(rs, d, s, ev);
    var d' := d.(accepted := d.accepted + [ts], lastTs := ts);
    LastHitInRange(rs, d, s, ev);
    DurationBound(rs, s.pri);
    TouchMeans(rs, s, ts);
    FollowStep(d.accepted[ev.at], d.accepted, ev.at, s.pri, rs.tolerance, ts);
    assert d'.accepted[ev.at] == d.accepted[ev.at];
    assert Supports(rs, d', Touch(rs, s, ts), ev);
  }

  // ---------- the queue ----------

  lemma AcceptKeepsQueue(rs: RadarSpec, d: Detector, e: PulseEvent)
    requires ValidSpec(rs) && QueueInv(rs, d) && InOrder(d, e.ts) && Accepts(rs, d, e)
    ensures JustAccepted(rs, d.(lastTs := e.ts, accepted := d.accepted + [e.ts]), e.ts)
    ensures d.accepted != [] ==> d.lastTs + rs.tolerance <= e.ts
  {
    if d.accepted != [] {
      assert Wrap64(e.ts - d.lastTs) == e.ts - d.lastTs;
      assert d.queued != [] ==> d.queued[|d.queued| - 1] in d.accepted;
    }
  }

  lemma {:induction false} DropOldKeeps(pulses: seq<u64>, minValid: int)
    requires pulses != [] && pulses[0] >= minValid
    ensures var r := DropOld(pulses, minValid); r != [] && r[|r| - 1] >= minValid
  {
    if pulses[|pulses| - 1] < minValid {
      DropOldKeeps(pulses[..|pulses| - 1], minValid);
    }
  }

  /** The queue after an enqueue: the new pulse is its newest, and its oldest is inside the window. */
  lemma EnqueuedShape(rs: RadarSpec, pulses: seq<u64>, ts: u64)
    requires ValidSpec(rs) && |pulses| <= 2 * rs.ppb - 1
    requires forall i, j :: 0 <= i < j < |pulses| ==> pulses[i] >= pulses[j]
    requires forall j :: 0 <= j < |pulses| ==> pulses[j] <= ts
    ensures var r := Enqueued(rs, pulses, ts);
            r != [] && r[0] == ts && |r| <= 2 * rs.ppb - 1 && ts - r[|r| - 1] <= WindowSize(rs)
  {
    var all := [ts] + pulses;
    var q := CheckWindow(rs, all, ts);
    WindowBound(rs);
    hide WindowSize;
    if |all| >= 2 && ts > WindowSize(rs) {
      DropOldKeeps(all, ts - WindowSize(rs));
    }
    assert q != [] && q[0] == all[0] && ts - q[|q| - 1] <= WindowSize(rs);
  }

  lemma PushNewest(pulses: seq<u64>, queued: seq<u64>, r: seq<u64>, ts: u64)
    requires IsNewestPart(pulses, queued) && r <= [ts] + pulses
    ensures IsNewestPart(r, queued + [ts])
  {
  }

  lemma PushSpaced(a: seq<u64>, gap: nat, t: u64)
    requires Spaced(a, gap) && (a != [] ==> a[|a| - 1] + gap <= t)
    ensures Spaced(a + [t], gap)
  {
  }

  lemma EnqueueKeeps(rs: RadarSpec, d: Detector, kmalloc: Kmalloc, p: Pools, ts: u64)
    requires ValidSpec(rs) && JustAccepted(rs, d, ts)
    ensures QueueInv(rs, Enqueue(rs, kmalloc, d, p, ts).0)
  {
    hide Enqueued, WindowSize, Spaced, IsNewestPart;
    PulsesBefore(rs, d, ts);
    DescendingQueue(rs, d);
    EnqueuedShape(rs, d.pulses, ts);
    PushNewest(d.pulses, d.queued, Enqueued(rs, d.pulses, ts), ts);
    PushSpaced(d.queued, rs.tolerance, ts);
    assert ts in d.accepted;
  }

  lemma DescendingQueue(rs: RadarSpec, d: Detector)
    requires QueueInv(rs, d)
    ensures forall i, j :: 0 <= i < j < |d.pulses| ==> d.pulses[i] >= d.pulses[j] + rs.tolerance
  {
  }

  /** Queueing a pulse takes no evidence away. */
  lemma EnqueueKeepsSupport(rs: RadarSpec, d: Detector, kmalloc: Kmalloc, p: Pools, ts: u64, s: Sequence)
    requires ValidSpec(rs) && Supported(rs, d, s)
    ensures Supported(rs, Enqueue(rs, kmalloc, d, p, ts).0, s)
  {
    hide NearMultiple, PastHits, PriToUse, Duration, Follow, Enqueued;
    var ev :| Supports(rs, d, s, ev);
    var d' := Enqueue(rs, kmalloc, d, p, ts).0;
    assert d'.queued[ev.lo..ev.hi] == d.queued[ev.lo..ev.hi];
    assert Supports(rs, d', s, ev);
  }

  // ---------- one pulse ----------

  /** What holds of a detector between operations. */
  ghost predicate Inv(rs: RadarSpec, d: Detector)
    requires rs.ppb >= 1
  {
    QueueInv(rs, d) && AllSupportedOrExpired(rs, d)
  }

  lemma NewDetectorInv(rs: RadarSpec)
    requires ValidSpec(rs)
    ensures Inv(rs, NEW_DETECTOR) && AllSupported(rs, NEW_DETECTOR)
  {
  }

  lemma ResetInv(rs: RadarSpec, d: Detector, p: Pools, ts: u64)
    requires ValidSpec(rs)
    ensures Inv(rs, Reset(d, p, ts).0) && AllSupported(rs, Reset(d, p, ts).0)
  {
  }

  lemma QueueIgnoresList(rs: RadarSpec, d: Detector, ss: seq<Sequence>, ts: u64)
    requires JustAccepted(rs, d, ts)
    ensures JustAccepted(rs, d.(seqs := ss), ts) && QueueInv(rs, d.(seqs := ss))
  {
  }

  /** The queue invariant survives every pulse, whatever the age of the queue. */
  lemma AddPulseKeepsQueue(rs: RadarSpec, kmalloc: Kmalloc, d: Detector, p: Pools, e: PulseEvent)
    requires ValidSpec(rs) && QueueInv(rs, d) && InOrder(d, e.ts)
    ensures QueueInv(rs, AddPulse(rs, kmalloc, d, p, e).det)
  {
    hide QueueInv, JustAccepted, Candidates, Extend, MaxContinued, TakeMany, Enqueue, Accepts, IsRadar;
    if Accepts(rs, d, e) {
      AcceptKeepsQueue(rs, d, e);
      var d0 := d.(lastTs := e.ts, accepted := d.accepted + [e.ts]);
      var d1 := d0.(seqs := Extend(rs, d.seqs, e.ts));
      var p1 := p.(pseq := Give(p.pseq, |d.seqs| - |d1.seqs|));
      var (ok, d2, p2) := CreateSequences(rs, kmalloc, d1, p1, e.ts, MaxContinued(rs, d.seqs, e.ts));
      QueueIgnoresList(rs, d0, d2.seqs, e.ts);
      EnqueueKeeps(rs, d2, kmalloc, p2, e.ts);
      ResetInv(rs, d2, p2, e.ts);
    }
  }

  /** Soundness, one step, whatever the age of the queue: after every pulse each listed sequence is accounted for or
      expired, and after an accepted pulse on a recent queue all are accounted for. */
  lemma AddPulseKeepsInv(rs: RadarSpec, kmalloc: Kmalloc, d: Detector, p: Pools, e: PulseEvent)
    requires ValidSpec(rs) && Inv(rs, d) && InOrder(d, e.ts)
    ensures Inv(rs, AddPulse(rs, kmalloc, d, p, e).det)
    ensures Accepts(rs, d, e) && Recent(d, e.ts) ==> AllSupported(rs, AddPulse(rs, kmalloc, d, p, e).det)
    ensures var radar := AddPulse(rs, kmalloc, d, p, e).radar;
            radar.Some? ==> radar.value in AddPulse(rs, kmalloc, d, p, e).det.seqs && IsRadar(rs, radar.value)
  {
    hide QueueInv, JustAccepted, Supported, Candidates, Extend, TakeMany, Enqueue, Accepts, Recent, IsRadar;
    AddPulseKeepsQueue(rs, kmalloc, d, p, e);
    if Accepts(rs, d, e) {
      var d0 := d.(lastTs := e.ts, accepted := d.accepted + [e.ts]);
      var d1 := d0.(seqs := Extend(rs, d.seqs, e.ts));
      var p1 := p.(pseq := Give(p.pseq, |d.seqs| - |d1.seqs|));
      var min := MaxContinued(rs, d.seqs, e.ts);
      var (ok, d2, p2) := CreateSequences(rs, kmalloc, d1, p1, e.ts, min);
      AcceptKeepsQueue(rs, d, e);
      QueueIgnoresList(rs, d0, d1.seqs, e.ts);
      AllListedSupported(rs, kmalloc, d, d1, p1, e.ts, min);
      AllEnqueuedSupported(rs, kmalloc, d2, p2, e.ts);
    }
  }

  lemma AllListedSupported(rs: RadarSpec, kmalloc: Kmalloc, d: Detector, d1: Detector, p1: Pools, ts: u64, min: nat)
    requires ValidSpec(rs) && Inv(rs, d)
    requires d1 == d.(lastTs := ts, seqs := Extend(rs, d.seqs, ts), accepted := d.accepted + [ts])
    requires JustAccepted(rs, d1, ts) && (d.accepted != [] ==> d.lastTs <= ts)
    ensures var d2 := CreateSequences(rs, kmalloc, d1, p1, ts, min).1;
            AllSupportedOrExpired(rs, d2) && (Recent(d, ts) ==> AllSupported(rs, d2))
  {
    hide Recent, JustAccepted, Inv, Supported, Extend, CreateSequences;
    var d2 := CreateSequences(rs, kmalloc, d1, p1, ts, min).1;
    forall s | s in d2.seqs
      ensures Supported(rs, d2, s) || (!Recent(d, ts) && s.deadline < d2.lastTs)
    {
      ListedSupported(rs, kmalloc, d, d1, p1, ts, min, s);
    }
  }

  lemma AllEnqueuedSupported(rs: RadarSpec, kmalloc: Kmalloc, d: Detector, p: Pools, ts: u64)
    requires ValidSpec(rs) && AllSupportedOrExpired(rs, d) && d.lastTs == ts
    ensures var d' := Enqueue(rs, kmalloc, d, p, ts).0;
            AllSupportedOrExpired(rs, d') && (AllSupported(rs, d) ==> AllSupported(rs, d'))
  {
    hide Supported;
    forall s | s in d.seqs && Supported(rs, d, s)
      ensures Supported(rs, Enqueue(rs, kmalloc, d, p, ts).0, s)
    {
      EnqueueKeepsSupport(rs, d, kmalloc, p, ts, s);
    }
  }

  lemma ListedSupported(rs: RadarSpec, kmalloc: Kmalloc, d: Detector, d1: Detector, p1: Pools, ts: u64, min: nat,
                        s: Sequence)
    requires ValidSpec(rs) && Inv(rs, d)
    requires d1 == d.(lastTs := ts, seqs := Extend(rs, d.seqs, ts), accepted := d.accepted + [ts])
    requires JustAccepted(rs, d1, ts) && (d.accepted != [] ==> d.lastTs <= ts)
    requires s in CreateSequences(rs, kmalloc, d1, p1, ts, min).1.seqs
    ensures var d2 := CreateSequences(rs, kmalloc, d1, p1, ts, min).1;
            d2.lastTs == ts && (Supported(rs, d2, s) || (!Recent(d, ts) && s.deadline < ts))
  {
    var d2 := CreateSequences(rs, kmalloc, d1, p1, ts, min).1;
    if s in d1.seqs {
      ExtendMembers(rs, d.seqs, ts);
      var s0 :| s0 in d.seqs && ts <= s0.deadline && s == Touch(rs, s0, ts);
      TouchSupported(rs, d, s0, ts);
      SupportIgnoresList(rs, d.(accepted := d.accepted + [ts], lastTs := ts), d2, s);
    } else {
      assert s in Candidates(rs, d1.pulses, 0, ts, min);
      if Recent(d, ts) {
        NewSequencesSupported(rs, d1, ts, min);
        SupportIgnoresList(rs, d1, d2, s);
      } else {
        OldQueue(rs, d1, ts);
        OldCandidates(rs, d1.pulses, 0, ts, min);
      }
    }
  }

  lemma SupportIgnoresList(rs: RadarSpec, d: Detector, d': Detector, s: Sequence)
    requires ValidSpec(rs) && Supported(rs, d, s) && d'.queued == d.queued && d'.accepted == d.accepted
    ensures Supported(rs, d', s)
  {
    hide NearMultiple, PastHits, PriToUse, Duration, Follow;
    var ev :| Supports(rs, d, s, ev);
    assert Supports(rs, d', s, ev);
  }
}
