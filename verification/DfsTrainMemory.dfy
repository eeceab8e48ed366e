/** How much memory the report of a pulse train takes, and what each of its pulses takes from the pools. */
module DfsTrainMemory {
  import opened Options
  import opened MachineWords
  import opened DfsModel
  import opened DfsAccounting
  import opened DfsTrains
  import opened DfsLateTrains

  /** What the pools can give: the free elements, and how often kmalloc has been called. */
  datatype Stock = Stock(calls: nat, pulses: nat, seqs: nat)

  datatype Need = PulseElement | SequenceElement

  function Free(p: Pools): Stock { Stock(p.calls, p.pulse.free, p.pseq.free) }

  /** The stock after one more element is taken, or none if there is no memory for it. */
  function Draw(kmalloc: Kmalloc, k: Stock, need: Need): Option<Stock> {
    if need.PulseElement? && k.pulses > 0 then Some(k.(pulses := k.pulses - 1))
    else if need.SequenceElement? && k.seqs > 0 then Some(k.(seqs := k.seqs - 1))
    else if kmalloc(k.calls) then Some(k.(calls := k.calls + 1))
    else None
  }

  function DrawAll(kmalloc: Kmalloc, k: Stock, needs: seq<Need>): Option<Stock>
    decreases needs
  {
    if needs == [] then Some(k)
    else
      match Draw(kmalloc, k, needs[0])
      case None => None
      case Some(rest) => DrawAll(kmalloc, rest, needs[1..])
  }

  /** What pulse number i of a train, counted from 0, needs: a queue element for the first one and a sequence for the
      second. A train whose deadlines wrap around is found anew with every pulse; it needs all its pulses queued, and
      one more sequence as long as there is another multiple of its period in the PRI range. */
  ghost function NeedsAt(rs: RadarSpec, start: u64, period: nat, i: nat): seq<Need>
    requires rs.ppb >= 1
  {
    if Roomy(rs, start, period) then
      if i == 0 then [PulseElement] else if i == 1 then [SequenceElement] else []
    else
      (if i > 0 && i * period <= rs.priMax then [SequenceElement] else []) +
      (if i + 1 < ReportAt(rs) then [PulseElement] else [])
  }

  ghost function Needs(rs: RadarSpec, start: u64, period: nat, n: nat): seq<Need>
    requires rs.ppb >= 1
  {
    if n == 0 then [] else Needs(rs, start, period, n - 1) + NeedsAt(rs, start, period, n - 1)
  }

  lemma {:induction false} DrawConcat(kmalloc: Kmalloc, k: Stock, a: seq<Need>, b: seq<Need>)
    ensures DrawAll(kmalloc, k, a + b) ==
            match DrawAll(kmalloc, k, a) case None => None case Some(rest) => DrawAll(kmalloc, rest, b)
    decreases a
  {
    if a == [] {
      assert a + b == b;
    } else {
      assert (a + b)[1..] == a[1..] + b;
      match Draw(kmalloc, k, a[0])
      case None =>
      case Some(rest) => DrawConcat(kmalloc, rest, a[1..], b);
    }
  }

  lemma DrawOne(kmalloc: Kmalloc, k: Stock, need: Need)
    ensures DrawAll(kmalloc, k, [need]) == Draw(kmalloc, k, need)
  {
  }

  /** Taking one element more than an earlier holder has put back draws one element from the stock. */
  lemma {:induction false} TakeOneMore(kmalloc: Kmalloc, calls: nat, c: Counters, held: nat)
    requires c.free >= held
    ensures TakeMany(kmalloc, calls, c, held) == (held, calls, c.(free := c.free - held, used := c.used + held))
    ensures var (n, calls', c') := TakeMany(kmalloc, calls, c, held + 1);
            if c.free > held then
              (n, calls', c') == (held + 1, calls, c.(free := c.free - held - 1, used := c.used + held + 1))
            else if kmalloc(calls) then n == held + 1 && calls' == calls + 1 && c'.free == 0 && c'.errors == c.errors
            else n == held && c'.errors == c.errors + 1
    decreases held
  {
    if held > 0 {
      var (ok, calls', c') := Take(kmalloc, calls, c);
      TakeOneMore(kmalloc, calls', c', held - 1);
    } else {
      assert TakeMany(kmalloc, calls, c, 1).0 <= 1;
    }
  }

  // ---------- single pulses ----------

  /** What an accepted pulse does to the pools, if it need not drop the oldest pulse. */
  lemma StepPools(rs: RadarSpec, kmalloc: Kmalloc, d: Detector, p: Pools, e: PulseEvent)
    requires rs.ppb >= 1 && Accepts(rs, d, e)
    ensures var o, min := AddPulse(rs, kmalloc, d, p, e), MaxContinued(rs, d.seqs, e.ts);
            var found := Candidates(rs, d.pulses, 0, e.ts, min);
            var put := Give(p.pseq, |d.seqs| - |Extend(rs, d.seqs, e.ts)|);
            var (k, calls, c) := TakeMany(kmalloc, p.calls, put, |found|);
            && o.pools.pseq.errors == c.errors
            && (k == |found| ==>
                  && o.pools.pseq == c
                  && if o.radar.Some? then o.pools.calls == calls && o.pools.pulse == p.pulse
                     else
                       var (ok, calls', q) := Take(kmalloc, calls, p.pulse);
                       && o.pools.calls == calls' && o.pools.pulse.errors == q.errors
                       && (ok && |o.det.pulses| == |d.pulses| + 1 ==> o.pools.pulse == q))
  {
    hide Candidates, Extend, MaxContinued, TakeMany, Accepts, IsRadar, Enqueued;
  }

  /** The first pulse draws its queue element. */
  lemma FirstDraws(rs: RadarSpec, kmalloc: Kmalloc, d: Detector, p: Pools, e: PulseEvent, period: nat)
    requires ValidSpec(rs) && Ready(rs, d, e.ts) && IsTrain(rs, [e], e.ts, period)
    ensures var o, drawn := AddPulse(rs, kmalloc, d, p, e), Draw(kmalloc, Free(p), PulseElement);
            && (o.pools.pulse.errors == p.pulse.errors <==> drawn.Some?)
            && (drawn.Some? ==> Free(o.pools) == drawn.value && o.det.seqs == [])
  {
    assert [e][0] == e;
    assert Candidates(rs, [], 0, e.ts, 0) == [];
    StepPools(rs, kmalloc, d, p, e);
    FirstPulse(rs, kmalloc, d, p, e, period);
    hide AddPulse, Candidates, Accepts, Ready;
  }

  /** The second pulse draws the sequence. */
  lemma SecondDraws(rs: RadarSpec, kmalloc: Kmalloc, d: Detector, p: Pools, e: PulseEvent, start: u64, period: nat)
    requires ValidSpec(rs) && FitsSpec(rs, period) && TrainState(rs, d, start, period, 1)
    requires e.ts == TrainTime(start, period, 1) && IsTrain(rs, [e], e.ts, period)
    ensures AddPulse(rs, kmalloc, d, p, e).pools.pseq.errors == p.pseq.errors <==>
            Draw(kmalloc, Free(p), SequenceElement).Some?
  {
    TrainSteps(start, period, 1, 1);
    OneCandidate(rs, start, period);
    TrainAccepts(rs, d, e, start, period);
    hide AddPulse, Candidates, Accepts, TrainTime, FitsSpec, TrainSequence;
    StepPools(rs, kmalloc, d, p, e);
    TakeOneMore(kmalloc, p.calls, Give(p.pseq, 0), 0);
  }

  // ---------- trains whose deadlines wrap around ----------

  /** How many sequences a late train of n pulses and one more gives rise to. */
  ghost function Found(rs: RadarSpec, period: nat, n: nat): nat {
    if n == 0 then 0 else Found(rs, period, n - 1) + if n * period <= rs.priMax then 1 else 0
  }

  lemma {:induction false} FoundNoMore(rs: RadarSpec, period: nat, i: nat, n: nat)
    requires i <= n && (i + 1) * period > rs.priMax
    ensures Found(rs, period, n) == Found(rs, period, i)
    decreases n
  {
    if i < n {
      Product(i + 1, n, period, period);
      FoundNoMore(rs, period, i, n - 1);
    }
  }

  lemma {:induction false} FoundNumber(rs: RadarSpec, q: seq<u64>, start: u64, period: nat, n: nat, i: nat, ts: u64)
    requires ValidSpec(rs) && rs.priMin <= period && n * period < 0x100_0000
    requires HoldsTrain(q, start, period, n) && i <= n && ts == TrainTime(start, period, n)
    ensures |Candidates(rs, q, i, ts, 0)| + Found(rs, period, i) == Found(rs, period, n)
    decreases n - i
  {
    hide TrainTime, Candidate;
    if i < n {
      TimeBetween(start, period, n - 1 - i, n);
      Product(i + 1, n, period, period);
      Product(1, i + 1, period, period);
      ShortDistance((i + 1) * period);
      if (i + 1) * period > rs.priMax {
        FoundNoMore(rs, period, i, n);
      } else {
        FoundNumber(rs, q, start, period, n, i + 1, ts);
        CandidateIsCounted(rs, q, i, ts);
      }
    }
  }

  lemma CandidateIsCounted(rs: RadarSpec, q: seq<u64>, i: nat, ts: u64)
    requires rs.ppb >= 1 && i < |q|
    ensures Candidate(rs, q, i, ts).count > 0
  {
    var pri := PriToUse(rs, Wrap32(ts - q[i]));
    LookBackBounds(q[i + 1..], ts, pri, Wrap64(ts - Duration(rs, pri)), rs.tolerance, Lookback(2, 0, q[i]), 0);
    hide LookBack, Duration, PriToUse, Wrap32, Wrap64;
  }

  /** Taking all sequences found draws one more than before, or none, from the stock. */
  lemma SequencesDraw(kmalloc: Kmalloc, calls: nat, c: Counters, held: nat, n: nat, pulses: nat)
    requires n == held || n == held + 1
    ensures var (k, calls', c') := TakeMany(kmalloc, calls, Give(c, held), n);
            var drawn := DrawAll(kmalloc, Stock(calls, pulses, c.free), if n == held then [] else [SequenceElement]);
            && (k == n <==> drawn.Some?) && (c'.errors == c.errors <==> drawn.Some?)
            && (drawn.Some? ==> drawn.value == Stock(calls', pulses, c'.free))
  {
    TakeOneMore(kmalloc, calls, Give(c, held), held);
    DrawOne(kmalloc, Stock(calls, pulses, c.free), SequenceElement);
    hide TakeMany;
  }

  /** What a pulse of a late train finds. */
  lemma LateFinds(rs: RadarSpec, d: Detector, start: u64, period: nat, n: nat, ts: u64)
    requires Late(rs, start, period) && 1 <= n < ReportAt(rs) && ts == TrainTime(start, period, n)
    requires LateState(d, start, TrainTime(start, period, n - 1)) && HoldsTrain(d.pulses, start, period, n)
    ensures MaxContinued(rs, d.seqs, ts) == 0 && Extend(rs, d.seqs, ts) == []
    ensures |Candidates(rs, d.pulses, 0, ts, 0)| == |ListedAfter(rs, d, ts)| == Found(rs, period, n)
    ensures CheckDetection(rs, ListedAfter(rs, d, ts)).Some? <==> n + 1 == ReportAt(rs)
    ensures n + 1 < ReportAt(rs) ==> |Enqueued(rs, d.pulses, ts)| == n + 1
  {
    TimeBetween(start, period, n - 1, n);
    TimeBetween(start, period, 0, n);
    TrainStart(start, period);
    LateTimes(rs, start, period, n);
    LateListed(rs, d, start, period, ts);
    AllExpire(rs, d.seqs, ts);
    WholeTrainDetected(rs, d.pulses, start, period, n, ts);
    FoundNumber(rs, d.pulses, start, period, n, 0, ts);
    ReversedLength(Candidates(rs, d.pulses, 0, ts, 0));
    if n + 1 < ReportAt(rs) {
      LateEnqueued(rs, d.pulses, start, period, n, ts);
    }
    hide Candidates, MaxContinued, Extend, Enqueued, TrainTime, ListedAfter, CheckDetection, ReportAt, TrainSequence,
         LateState, Late, WindowSize, Duration;
  }

  /** Drawing the sequences and then the queue element, if both are needed. */
  lemma DrawsInTurn(kmalloc: Kmalloc, k: Stock, more: bool, queued: bool)
    ensures var needed, queue := if more then [SequenceElement] else [], if queued then [PulseElement] else [];
            DrawAll(kmalloc, k, needed + queue) ==
            match DrawAll(kmalloc, k, needed)
            case None => None
            case Some(rest) => if queued then Draw(kmalloc, rest, PulseElement) else Some(rest)
  {
    var needed, queue := if more then [SequenceElement] else [], if queued then [PulseElement] else [];
    DrawConcat(kmalloc, k, needed, queue);
    if DrawAll(kmalloc, k, needed).Some? {
      DrawOne(kmalloc, DrawAll(kmalloc, k, needed).value, PulseElement);
    }
  }

  /** What a pulse of a late train does to the pools. */
  lemma LatePools(rs: RadarSpec, kmalloc: Kmalloc, d: Detector, p: Pools, e: PulseEvent,
                  start: u64, period: nat, n: nat)
    requires Late(rs, start, period) && 1 <= n < ReportAt(rs)
    requires LateState(d, start, TrainTime(start, period, n - 1)) && HoldsTrain(d.pulses, start, period, n)
    requires e.ts == TrainTime(start, period, n) && IsTrain(rs, [e], e.ts, period)
    ensures var o, m := AddPulse(rs, kmalloc, d, p, e), Found(rs, period, n);
            var (k, calls, c) := TakeMany(kmalloc, p.calls, Give(p.pseq, |d.seqs|), m);
            && o.pools.pseq.errors == c.errors
            && (k == m && c.errors == p.pseq.errors ==>
                  && |o.det.seqs| == m && o.pools.pseq == c
                  && if n + 1 == ReportAt(rs) then o.pools.calls == calls && o.pools.pulse == p.pulse
                     else
                       var (ok, calls', q) := Take(kmalloc, calls, p.pulse);
                       o.pools.calls == calls' && o.pools.pulse.errors == q.errors && (ok ==> o.pools.pulse == q))
  {
    TimeBetween(start, period, n - 1, n);
    TrainAccepts(rs, d, e, start, period);
    LateFinds(rs, d, start, period, n, e.ts);
    assert |d.pulses| == n;
    hide AddPulse, Candidates, MaxContinued, Extend, Accepts, IsTrain, Enqueued, TrainTime, ListedAfter, TakeMany,
         CheckDetection, ReportAt, LateState, HoldsTrain, Late, Found;
    StepShape(rs, kmalloc, d, p, e);
    StepPools(rs, kmalloc, d, p, e);
  }

  /** A pulse of a late train draws what it needs. */
  lemma LateDraws(rs: RadarSpec, kmalloc: Kmalloc, d: Detector, p: Pools, e: PulseEvent,
                  start: u64, period: nat, n: nat)
    requires Late(rs, start, period) && 1 <= n < ReportAt(rs)
    requires LateState(d, start, TrainTime(start, period, n - 1)) && HoldsTrain(d.pulses, start, period, n)
    requires |d.seqs| == Found(rs, period, n - 1)
    requires e.ts == TrainTime(start, period, n) && IsTrain(rs, [e], e.ts, period)
    ensures var o, drawn := AddPulse(rs, kmalloc, d, p, e), DrawAll(kmalloc, Free(p), NeedsAt(rs, start, period, n));
            && (Undisturbed(p, o.pools) <==> drawn.Some?)
            && (drawn.Some? ==> Free(o.pools) == drawn.value && |o.det.seqs| == Found(rs, period, n))
  {
    var more := n * period <= rs.priMax;
    assert Found(rs, period, n) == |d.seqs| + if more then 1 else 0;
    hide AddPulse, IsTrain, TrainTime, TakeMany, DrawAll, ReportAt, LateState, HoldsTrain, Found, ValidSpec, FitsSpec,
         Roomy;
    LatePools(rs, kmalloc, d, p, e, start, period, n);
    SequencesDraw(kmalloc, p.calls, p.pseq, |d.seqs|, Found(rs, period, n), p.pulse.free);
    DrawsInTurn(kmalloc, Free(p), more, n + 1 < ReportAt(rs));
  }
}
