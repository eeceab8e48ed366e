/** The DFS radar pulse detector as functions on values: what every detector operation computes. */
module DfsModel {
  import opened Options
  import opened MachineWords
  import opened DfsMultiple

  /** One radar type to look for. */
  datatype RadarSpec = RadarSpec(
    typeId: nat, widthMin: nat, widthMax: nat, priMin: nat, priMax: nat,
    numPri: nat, ppb: nat, ppbThresh: nat, tolerance: nat, chirp: bool)

  datatype PulseEvent = PulseEvent(ts: u64, freq: nat, width: nat, chirp: bool)

  /** A candidate pulse train. */
  datatype Sequence = Sequence(
    pri: nat, dur: nat, count: nat, falses: nat, firstTs: u64, lastTs: u64, deadline: u64)

  /** A detector for one radar type. `pulses` is the queue, newest first. `accepted` and `queued` are
      logs for the proofs: the pulses accepted, and those that entered the queue, since the last reset. */
  datatype Detector = Detector(
    lastTs: u64, seqs: seq<Sequence>, pulses: seq<u64>, accepted: seq<u64>, queued: seq<u64>)

  const PRI_TOLERANCE: nat := 16

  /** The field widths of the C struct and the relations all pattern tables satisfy. */
  predicate ValidSpec(rs: RadarSpec) {
    && rs.priMin <= rs.priMax < 0x1_0000
    && 1 <= rs.numPri < 0x100
    && 1 <= rs.ppbThresh <= rs.ppb < 0x100
    && rs.tolerance == PRI_TOLERANCE
  }

  // ---------- the shared object pools ----------

  /** Statistics of one kind of pooled object; `free` is the length of its free list. */
  datatype Counters = Counters(free: nat, allocs: int, used: int, errors: int)

  /** `calls` counts the kmalloc calls so far; call number k succeeds exactly when kmalloc(k). */
  datatype Pools = Pools(references: int, poolReference: int, pulse: Counters, pseq: Counters, calls: nat)

  type Kmalloc = nat -> bool

  /** Get one object: from the free list, or else freshly allocated. */
  function Take(kmalloc: Kmalloc, calls: nat, c: Counters): (bool, nat, Counters) {
    if c.free > 0 then (true, calls, c.(free := c.free - 1, used := c.used + 1))
    else if kmalloc(calls) then (true, calls + 1, c.(allocs := c.allocs + 1, used := c.used + 1))
    else (false, calls + 1, c.(errors := c.errors + 1))
  }

  /** Get up to n objects, stopping at the first failure. */
  function TakeMany(kmalloc: Kmalloc, calls: nat, c: Counters, n: nat): (r: (nat, nat, Counters))
    ensures r.0 <= n
    decreases n
  {
    if n == 0 then (0, calls, c)
    else
      var (ok, calls', c') := Take(kmalloc, calls, c);
      if !ok then (0, calls', c')
      else
        var (k, calls'', c'') := TakeMany(kmalloc, calls', c', n - 1);
        (k + 1, calls'', c'')
  }

  /** Put n objects back on the free list. */
  function Give(c: Counters, n: nat): Counters {
    c.(free := c.free + n, used := c.used - n)
  }

  /** Empty the free list. */
  function FreeAll(c: Counters): Counters {
    c.(free := 0, allocs := c.allocs - c.free)
  }

  function Register(p: Pools): Pools {
    p.(references := p.references + 1, poolReference := p.poolReference + 1)
  }

  /** Drop a reference; the last one empties the free lists. */
  function Deregister(p: Pools): Pools {
    var p' := p.(references := p.references - 1, poolReference := p.poolReference - 1);
    if p'.references == 0 then p'.(pulse := FreeAll(p.pulse), pseq := FreeAll(p.pseq)) else p'
  }

  // ---------- the pulse queue ----------

  /** Drop pulses older than `minValid` from the old end of the queue. */
  function DropOld(pulses: seq<u64>, minValid: int): (r: seq<u64>)
    ensures r <= pulses
  {
    if pulses == [] || pulses[|pulses| - 1] >= minValid then pulses
    else DropOld(pulses[..|pulses| - 1], minValid)
  }

  function WindowSize(rs: RadarSpec): nat {
    rs.priMax * rs.ppb * rs.numPri
  }

  function CheckWindow(rs: RadarSpec, pulses: seq<u64>, lastTs: u64): (r: seq<u64>)
    ensures r <= pulses
  {
    if |pulses| < 2 || lastTs <= WindowSize(rs) then pulses
    else DropOld(pulses, lastTs - WindowSize(rs))
  }

  /** The queue after a successful enqueue. */
  function Enqueued(rs: RadarSpec, pulses: seq<u64>, ts: u64): (r: seq<u64>)
    ensures r <= [ts] + pulses
  {
    var q := CheckWindow(rs, [ts] + pulses, ts);
    if |q| >= 2 * rs.ppb && q != [] then q[..|q| - 1] else q
  }

  function Enqueue(rs: RadarSpec, kmalloc: Kmalloc, d: Detector, p: Pools, ts: u64): (Detector, Pools) {
    var (ok, calls, c) := Take(kmalloc, p.calls, p.pulse);
    if !ok then (d, p.(calls := calls, pulse := c))
    else
      var q := Enqueued(rs, d.pulses, ts);
      (d.(pulses := q, lastTs := ts, queued := d.queued + [ts]),
       p.(calls := calls, pulse := Give(c, |d.pulses| + 1 - |q|)))
  }

  // ---------- pulse sequences ----------

  function PriToUse(rs: RadarSpec, delta: nat): nat {
    if rs.priMin + PRI_TOLERANCE == rs.priMax - PRI_TOLERANCE then rs.priMin + PRI_TOLERANCE else delta
  }

  function Duration(rs: RadarSpec, pri: nat): nat
    requires rs.ppb >= 1
  {
    pri * (rs.ppb - 1) + 2 * rs.tolerance
  }

  /** What the search through the older pulses has collected. */
  datatype Lookback = Lookback(count: nat, falses: nat, firstTs: u64)

  /** Search older pulses for earlier members of a new sequence, newest first. `pending` counts
      misses that become false pulses only once an older match is found. */
  function LookBack(older: seq<u64>, ts: u64, pri: nat, minValid: u64, tolerance: nat,
                    acc: Lookback, pending: nat): Lookback
  {
    if older == [] || older[0] < minValid then acc
    else if GetMultiple(Wrap32(ts - older[0]), pri, tolerance) > 0 then
      LookBack(older[1..], ts, pri, minValid, tolerance,
               Lookback(acc.count + 1, acc.falses + pending, older[0]), 0)
    else LookBack(older[1..], ts, pri, minValid, tolerance, acc, pending + 1)
  }

  /** The search counts each older pulse at most once, and its first pulse is one of them inside the time window. */
  lemma {:induction false} LookBackBounds(
      older: seq<u64>, ts: u64, pri: nat, minValid: u64, tolerance: nat, acc: Lookback, pending: nat)
    ensures var lb := LookBack(older, ts, pri, minValid, tolerance, acc, pending);
            && acc.count <= lb.count <= acc.count + |older|
            && lb.count + lb.falses <= acc.count + acc.falses + pending + |older|
            && (lb.firstTs == acc.firstTs || (lb.firstTs in older && lb.firstTs >= minValid))
    decreases |older|
  {
    hide GetMultiple, Wrap32;
    if older != [] && older[0] >= minValid {
      assert older == [older[0]] + older[1..];
      if GetMultiple(Wrap32(ts - older[0]), pri, tolerance) > 0 {
        LookBackBounds(older[1..], ts, pri, minValid, tolerance,
                       Lookback(acc.count + 1, acc.falses + pending, older[0]), 0);
      } else {
        LookBackBounds(older[1..], ts, pri, minValid, tolerance, acc, pending + 1);
      }
    }
  }

  /** The sequence that pulse `ts` forms with queued pulse number i. */
  function Candidate(rs: RadarSpec, pulses: seq<u64>, i: nat, ts: u64): Sequence
    requires i < |pulses| && rs.ppb >= 1
  {
    var pri := PriToUse(rs, Wrap32(ts - pulses[i]));
    var dur := Duration(rs, pri);
    var lb := LookBack(pulses[i + 1..], ts, pri, Wrap64(ts - dur), rs.tolerance, Lookback(2, 0, pulses[i]), 0);
    Sequence(pri, dur, lb.count, lb.falses, lb.firstTs, ts, Wrap64(lb.firstTs + dur))
  }

  /** The new sequences that queued pulses number i and older give rise to, newest base first. */
  function Candidates(rs: RadarSpec, pulses: seq<u64>, i: nat, ts: u64, minCount: nat): seq<Sequence>
    requires i <= |pulses| && rs.ppb >= 1
    decreases |pulses| - i
  {
    if i == |pulses| then []
    else
      var delta := Wrap32(ts - pulses[i]);
      if delta < rs.priMin then Candidates(rs, pulses, i + 1, ts, minCount)
      else if delta > rs.priMax then []
      else
        var c := Candidate(rs, pulses, i, ts);
        if c.count <= minCount then Candidates(rs, pulses, i + 1, ts, minCount)
        else [c] + Candidates(rs, pulses, i + 1, ts, minCount)
  }

  function Reversed<T(!new)>(s: seq<T>): (r: seq<T>)
    ensures forall x :: x in r <==> x in s
  {
    if s == [] then [] else Reversed(s[1..]) + [s[0]]
  }

  /** Create sequences; on an allocation failure those created so far stay listed. */
  function CreateSequences(rs: RadarSpec, kmalloc: Kmalloc, d: Detector, p: Pools, ts: u64, minCount: nat)
    : (bool, Detector, Pools)
    requires rs.ppb >= 1
  {
    var found := Candidates(rs, d.pulses, 0, ts, minCount);
    var (k, calls, c) := TakeMany(kmalloc, p.calls, p.pseq, |found|);
    (k == |found|, d.(seqs := Reversed(found[..k]) + d.seqs), p.(calls := calls, pseq := c))
  }

  /** Does `ts` continue the sequence? */
  predicate Continues(rs: RadarSpec, s: Sequence, ts: u64) {
    GetMultiple(Wrap32(ts - s.lastTs), s.pri, rs.tolerance) > 0
  }

  function Touch(rs: RadarSpec, s: Sequence, ts: u64): Sequence {
    if Continues(rs, s, ts) then s.(lastTs := ts, count := s.count + 1) else s.(falses := s.falses + 1)
  }

  /** Drop the expired sequences and account for `ts` in the others. */
  function Extend(rs: RadarSpec, ss: seq<Sequence>, ts: u64): (r: seq<Sequence>)
    ensures |r| <= |ss|
  {
    if ss == [] then []
    else
      var s, front := ss[|ss| - 1], Extend(rs, ss[..|ss| - 1], ts);
      if ts > s.deadline then front else front + [Touch(rs, s, ts)]
  }

  /** The largest pulse count among the sequences that `ts` continues, or 0. */
  function MaxContinued(rs: RadarSpec, ss: seq<Sequence>, ts: u64): nat {
    if ss == [] then 0
    else
      var s, m := ss[|ss| - 1], MaxContinued(rs, ss[..|ss| - 1], ts);
      if ts <= s.deadline && Continues(rs, s, ts) && m < s.count + 1 then s.count + 1 else m
  }

  /** The detection test. */
  predicate IsRadar(rs: RadarSpec, s: Sequence) {
    s.count >= rs.ppbThresh && s.count * rs.numPri >= s.falses
  }

  /** The first listed sequence that passes the detection test. */
  function CheckDetection(rs: RadarSpec, ss: seq<Sequence>): (r: Option<Sequence>)
    ensures r == None <==> forall s | s in ss :: !IsRadar(rs, s)
    ensures r.Some? ==> r.value in ss && IsRadar(rs, r.value)
  {
    if ss == [] then None
    else if IsRadar(rs, ss[0]) then Some(ss[0])
    else CheckDetection(rs, ss[1..])
  }

  // ---------- the detector operations ----------

  const NEW_DETECTOR := Detector(0, [], [], [], [])

  function Reset(d: Detector, p: Pools, ts: u64): (Detector, Pools) {
    (Detector(ts, [], [], [], []),
     p.(pulse := Give(p.pulse, |d.pulses|), pseq := Give(p.pseq, |d.seqs|)))
  }

  /** Is the pulse acceptable for this radar type? */
  predicate Accepts(rs: RadarSpec, d: Detector, e: PulseEvent) {
    && rs.widthMin <= e.width <= rs.widthMax
    && Wrap64(e.ts - d.lastTs) >= rs.tolerance
    && (rs.chirp ==> e.chirp)
  }

  datatype Outcome = Outcome(det: Detector, pools: Pools, radar: Option<Sequence>)

  /** pri_detector_add_pulse. */
  function AddPulse(rs: RadarSpec, kmalloc: Kmalloc, d: Detector, p: Pools, e: PulseEvent): Outcome
    requires rs.ppb >= 1
  {
    if !Accepts(rs, d, e) then Outcome(d, p, None)
    else
      var ss := Extend(rs, d.seqs, e.ts);
      var d1 := d.(lastTs := e.ts, seqs := ss, accepted := d.accepted + [e.ts]);
      var p1 := p.(pseq := Give(p.pseq, |d.seqs| - |ss|));
      var (ok, d2, p2) := CreateSequences(rs, kmalloc, d1, p1, e.ts, MaxContinued(rs, d.seqs, e.ts));
      if !ok then
        var (d3, p3) := Reset(d2, p2, e.ts);
        Outcome(d3, p3, None)
      else
        var radar := CheckDetection(rs, d2.seqs);
        if radar.Some? then Outcome(d2, p2, radar)
        else
          var (d3, p3) := Enqueue(rs, kmalloc, d2, p2, e.ts);
          Outcome(d3, p3, None)
  }
}
