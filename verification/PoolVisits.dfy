/** The visits to the shared pools that each detector operation makes, in order, whatever the pools answer. */
module PoolVisits {
  import opened MachineWords
  import opened DfsModel
  import opened DfsAccounting

  datatype Kind = Pulse | Pseq

  /** Each visit takes the pool lock once. A request finds a pooled object or not; if not, one may be allocated. */
  datatype Visit = Pop(kind: Kind, found: bool) | Alloc(kind: Kind, ok: bool) | Put(kind: Kind)

  /** What a detector holds, in its lists or in hand. */
  datatype Held = Held(pulses: nat, seqs: nat)

  /** What a request for one object meets. */
  datatype Answer = Answer(found: bool, ok: bool)

  predicate Gets(a: Answer) { a.found || a.ok }

  function TakeVisits(kind: Kind, a: Answer): seq<Visit> {
    if a.found then [Pop(kind, true)] else [Pop(kind, false), Alloc(kind, a.ok)]
  }

  function Puts(kind: Kind, n: nat): seq<Visit> {
    if n == 0 then [] else [Put(kind)] + Puts(kind, n - 1)
  }

  /** How many requests succeed before the first one that fails. */
  function Got(answers: seq<Answer>): (n: nat)
    ensures n <= |answers|
  {
    if answers == [] || !Gets(answers[0]) then 0 else 1 + Got(answers[1..])
  }

  function TakeManyVisits(kind: Kind, answers: seq<Answer>): seq<Visit> {
    if answers == [] then []
    else TakeVisits(kind, answers[0]) + if Gets(answers[0]) then TakeManyVisits(kind, answers[1..]) else []
  }

  function ResetVisits(d: Detector): seq<Visit> {
    Puts(Pseq, |d.seqs|) + Puts(Pulse, |d.pulses|)
  }

  // ---------- operations ----------

  /** The sequences that an accepted pulse asks objects for. */
  function Wanted(rs: RadarSpec, d: Detector, ts: u64): seq<Sequence>
    requires rs.ppb >= 1
  {
    Candidates(rs, d.pulses, 0, ts, MaxContinued(rs, d.seqs, ts))
  }

  /** An operation, and the answers its requests meet. */
  datatype Operation =
    | Feed(event: PulseEvent, answers: seq<Answer>, last: Answer)
    | Restart(ts: u64)
    | Leave

  predicate OperationOk(rs: RadarSpec, d: Detector, op: Operation)
    requires rs.ppb >= 1
  {
    op.Feed? && Accepts(rs, d, op.event) ==> |op.answers| == |Wanted(rs, d, op.event.ts)|
  }

  datatype Done = Done(det: Detector, visits: seq<Visit>)

  function WithListed(rs: RadarSpec, d: Detector, ts: u64, k: nat): Detector
    requires rs.ppb >= 1 && k <= |Wanted(rs, d, ts)|
  {
    d.(lastTs := ts, seqs := Reversed(Wanted(rs, d, ts)[..k]) + Extend(rs, d.seqs, ts), accepted := d.accepted + [ts])
  }

  /** The end of add_pulse, once the new sequences are listed. */
  function Finish(rs: RadarSpec, d: Detector, ts: u64, last: Answer): Done {
    if CheckDetection(rs, d.seqs).Some? then Done(d, [])
    else if !Gets(last) then Done(d, TakeVisits(Pulse, last))
    else
      var q := Enqueued(rs, d.pulses, ts);
      Done(d.(pulses := q, lastTs := ts, queued := d.queued + [ts]),
           TakeVisits(Pulse, last) + Puts(Pulse, |d.pulses| + 1 - |q|))
  }

  /** What an operation makes of the detector, and its visits. */
  function Perform(rs: RadarSpec, d: Detector, op: Operation): Done
    requires rs.ppb >= 1 && OperationOk(rs, d, op)
  {
    match op
    case Restart(ts) => Done(Detector(ts, [], [], [], []), ResetVisits(d))
    case Leave => Done(NEW_DETECTOR, ResetVisits(d))
    case Feed(e, answers, last) =>
      if !Accepts(rs, d, e) then Done(d, [])
      else
        var expired := Puts(Pseq, |d.seqs| - |Extend(rs, d.seqs, e.ts)|);
        var created := expired + TakeManyVisits(Pseq, answers);
        var d' := WithListed(rs, d, e.ts, Got(answers));
        if Got(answers) < |answers| then Done(Detector(e.ts, [], [], [], []), created + ResetVisits(d'))
        else
          var end := Finish(rs, d', e.ts, last);
          Done(end.det, created + end.visits)
  }

  // ---------- a detector gives back only what it holds ----------

  function Holding(h: Held, kind: Kind): nat { if kind.Pulse? then h.pulses else h.seqs }

  function Change(h: Held, kind: Kind, n: int): Held
    requires Holding(h, kind) + n >= 0
  {
    if kind.Pulse? then h.(pulses := h.pulses + n) else h.(seqs := h.seqs + n)
  }

  function After(h: Held, v: Visit): Held {
    match v
    case Pop(kind, found) => if found then Change(h, kind, 1) else h
    case Alloc(kind, ok) => if ok then Change(h, kind, 1) else h
    case Put(kind) => if Holding(h, kind) > 0 then Change(h, kind, -1) else h
  }

  /** The visits lead from holdings h to h', and never put what is not held. */
  predicate Leads(h: Held, visits: seq<Visit>, h': Held)
    decreases |visits|
  {
    if visits == [] then h == h'
    else (visits[0].Put? ==> Holding(h, visits[0].kind) > 0) && Leads(After(h, visits[0]), visits[1..], h')
  }

  function Sizes(d: Detector): Held { Held(|d.pulses|, |d.seqs|) }

  lemma {:induction false} LeadsConcat(h: Held, a: seq<Visit>, h1: Held, b: seq<Visit>, h2: Held)
    requires Leads(h, a, h1) && Leads(h1, b, h2)
    ensures Leads(h, a + b, h2)
    decreases |a|
  {
    if a == [] {
      assert a + b == b;
    } else {
      assert (a + b)[1..] == a[1..] + b;
      LeadsConcat(After(h, a[0]), a[1..], h1, b, h2);
    }
  }

  lemma {:induction false} PutsLead(h: Held, kind: Kind, n: nat)
    requires n <= Holding(h, kind)
    ensures Leads(h, Puts(kind, n), Change(h, kind, 0 - n))
    decreases n
  {
    if n > 0 {
      assert Puts(kind, n)[1..] == Puts(kind, n - 1);
      PutsLead(Change(h, kind, -1), kind, n - 1);
    }
  }

  lemma TakeLeads(h: Held, kind: Kind, a: Answer)
    ensures Leads(h, TakeVisits(kind, a), if Gets(a) then Change(h, kind, 1) else h)
  {
    if !a.found {
      assert TakeVisits(kind, a)[1..] == [Alloc(kind, a.ok)];
      assert [Alloc(kind, a.ok)][1..] == [];
    }
  }

  lemma {:induction false} TakeManyLead(h: Held, kind: Kind, answers: seq<Answer>)
    ensures Leads(h, TakeManyVisits(kind, answers), Change(h, kind, Got(answers)))
    decreases |answers|
  {
    hide Leads, TakeVisits;
    if answers != [] {
      TakeLeads(h, kind, answers[0]);
      if Gets(answers[0]) {
        var h1 := Change(h, kind, 1);
        TakeManyLead(h1, kind, answers[1..]);
        LeadsConcat(h, TakeVisits(kind, answers[0]), h1, TakeManyVisits(kind, answers[1..]),
                    Change(h, kind, Got(answers)));
      } else {
        assert TakeVisits(kind, answers[0]) + [] == TakeVisits(kind, answers[0]);
      }
    } else {
      NoVisits(h);
    }
  }

  lemma NoVisits(h: Held)
    ensures Leads(h, [], h)
  {
  }

  lemma ResetLeads(d: Detector)
    ensures Leads(Sizes(d), ResetVisits(d), Held(0, 0))
  {
    hide Leads, Puts;
    PutsLead(Sizes(d), Pseq, |d.seqs|);
    PutsLead(Held(|d.pulses|, 0), Pulse, |d.pulses|);
    LeadsConcat(Sizes(d), Puts(Pseq, |d.seqs|), Held(|d.pulses|, 0), Puts(Pulse, |d.pulses|), Held(0, 0));
  }

  lemma FinishLeads(rs: RadarSpec, d: Detector, ts: u64, last: Answer)
    ensures var end := Finish(rs, d, ts, last); Leads(Sizes(d), end.visits, Sizes(end.det))
  {
    hide Leads, Puts, TakeVisits, Enqueued;
    NoVisits(Sizes(d));
    TakeLeads(Sizes(d), Pulse, last);
    var more := Change(Sizes(d), Pulse, 1);
    var n := |d.pulses| + 1 - |Enqueued(rs, d.pulses, ts)|;
    PutsLead(more, Pulse, n);
    if Gets(last) {
      LeadsConcat(Sizes(d), TakeVisits(Pulse, last), more, Puts(Pulse, n), Change(more, Pulse, 0 - n));
    }
  }

  lemma ListedSizes(rs: RadarSpec, d: Detector, ts: u64, k: nat)
    requires rs.ppb >= 1 && k <= |Wanted(rs, d, ts)|
    ensures Sizes(WithListed(rs, d, ts, k)) == Held(|d.pulses|, k + |Extend(rs, d.seqs, ts)|)
  {
    hide Wanted;
    ReversedLength(Wanted(rs, d, ts)[..k]);
  }

  /** Whatever its requests meet, an operation puts only what the detector holds, and at its end the detector holds
      exactly the elements of its lists. */
  lemma OperationLeads(rs: RadarSpec, d: Detector, op: Operation)
    requires rs.ppb >= 1 && OperationOk(rs, d, op)
    ensures var done := Perform(rs, d, op); Leads(Sizes(d), done.visits, Sizes(done.det))
    ensures op.Leave? ==> Sizes(Perform(rs, d, op).det) == Held(0, 0)
  {
    hide Leads, Puts, TakeManyVisits, Wanted, Extend, WithListed, Finish, ResetVisits, Accepts;
    ResetLeads(d);
    NoVisits(Sizes(d));
    if op.Feed? && Accepts(rs, d, op.event) {
      var ts, kept := op.event.ts, |Extend(rs, d.seqs, op.event.ts)|;
      var h1, k := Held(|d.pulses|, kept), Got(op.answers);
      var d' := WithListed(rs, d, ts, k);
      ListedSizes(rs, d, ts, k);
      PutsLead(Sizes(d), Pseq, |d.seqs| - kept);
      TakeManyLead(h1, Pseq, op.answers);
      var expired, taken := Puts(Pseq, |d.seqs| - kept), TakeManyVisits(Pseq, op.answers);
      LeadsConcat(Sizes(d), expired, h1, taken, Sizes(d'));
      ResetLeads(d');
      LeadsConcat(Sizes(d), expired + taken, Sizes(d'), ResetVisits(d'), Held(0, 0));
      FinishLeads(rs, d', ts, op.last);
      var end := Finish(rs, d', ts, op.last);
      LeadsConcat(Sizes(d), expired + taken, Sizes(d'), end.visits, Sizes(end.det));
    }
  }

  // ---------- the visits are those of the operations ----------

  function Of(p: Pools, kind: Kind): Counters { if kind.Pulse? then p.pulse else p.pseq }

  function Set(p: Pools, kind: Kind, c: Counters): Pools { if kind.Pulse? then p.(pulse := c) else p.(pseq := c) }

  /** The effect of a visit on the pools. */
  function Visited(p: Pools, v: Visit): Pools {
    var c := Of(p, v.kind);
    match v
    case Pop(kind, found) =>
      if found && c.free > 0 then Set(p, kind, c.(free := c.free - 1, used := c.used + 1)) else p
    case Alloc(kind, ok) =>
      Set(p, kind, if ok then c.(allocs := c.allocs + 1, used := c.used + 1) else c.(errors := c.errors + 1))
        .(calls := p.calls + 1)
    case Put(kind) => Set(p, kind, Give(c, 1))
  }

  /** Does the answer of the visit fit the pools? */
  predicate Answered(p: Pools, v: Visit) { v.Pop? ==> (v.found <==> Of(p, v.kind).free > 0) }

  /** With nobody else about, the visits lead from pools p to p'. */
  predicate Replays(kmalloc: Kmalloc, p: Pools, visits: seq<Visit>, p': Pools)
    decreases |visits|
  {
    if visits == [] then p == p'
    else
      && Answered(p, visits[0]) && (visits[0].Alloc? ==> visits[0].ok == kmalloc(p.calls))
      && Replays(kmalloc, Visited(p, visits[0]), visits[1..], p')
  }

  lemma {:induction false} ReplaysConcat(kmalloc: Kmalloc, p: Pools, a: seq<Visit>, p1: Pools, b: seq<Visit>, p2: Pools)
    requires Replays(kmalloc, p, a, p1) && Replays(kmalloc, p1, b, p2)
    ensures Replays(kmalloc, p, a + b, p2)
    decreases |a|
  {
    if a == [] {
      assert a + b == b;
    } else {
      assert (a + b)[1..] == a[1..] + b;
      ReplaysConcat(kmalloc, Visited(p, a[0]), a[1..], p1, b, p2);
    }
  }

  lemma {:induction false} PutsReplay(kmalloc: Kmalloc, p: Pools, kind: Kind, n: nat)
    ensures Replays(kmalloc, p, Puts(kind, n), Set(p, kind, Give(Of(p, kind), n)))
    decreases n
  {
    if n > 0 {
      assert Puts(kind, n)[1..] == Puts(kind, n - 1);
      PutsReplay(kmalloc, Visited(p, Put(kind)), kind, n - 1);
    }
  }

  function AnswerAt(kmalloc: Kmalloc, p: Pools, kind: Kind): Answer {
    var found := Of(p, kind).free > 0;
    Answer(found, !found && kmalloc(p.calls))
  }

  lemma TakeReplays(kmalloc: Kmalloc, p: Pools, kind: Kind)
    ensures var (ok, calls, c) := Take(kmalloc, p.calls, Of(p, kind));
            && ok == Gets(AnswerAt(kmalloc, p, kind))
            && Replays(kmalloc, p, TakeVisits(kind, AnswerAt(kmalloc, p, kind)), Set(p, kind, c).(calls := calls))
  {
    var a := AnswerAt(kmalloc, p, kind);
    if a.found {
      assert TakeVisits(kind, a)[1..] == [];
    } else {
      assert TakeVisits(kind, a)[1..] == [Alloc(kind, a.ok)];
      assert [Alloc(kind, a.ok)][1..] == [];
    }
  }

  lemma {:induction false} TakeManyReplay(kmalloc: Kmalloc, p: Pools, kind: Kind, n: nat) returns (answers: seq<Answer>)
    ensures |answers| == n
    ensures var (k, calls, c) := TakeMany(kmalloc, p.calls, Of(p, kind), n);
            && k == Got(answers)
            && Replays(kmalloc, p, TakeManyVisits(kind, answers), Set(p, kind, c).(calls := calls))
    decreases n
  {
    answers := [];
    if n > 0 {
      hide Replays, Take, TakeVisits;
      var a := AnswerAt(kmalloc, p, kind);
      var (ok, calls, c) := Take(kmalloc, p.calls, Of(p, kind));
      var p1 := Set(p, kind, c).(calls := calls);
      TakeReplays(kmalloc, p, kind);
      var more := TakeManyReplay(kmalloc, p1, kind, n - 1);
      answers := [a] + more;
      assert answers[1..] == more;
      if ok {
        var (k, calls', c') := TakeMany(kmalloc, calls, c, n - 1);
        ReplaysConcat(kmalloc, p, TakeVisits(kind, a), p1, TakeManyVisits(kind, more),
                      Set(p1, kind, c').(calls := calls'));
      } else {
        assert TakeVisits(kind, a) + [] == TakeVisits(kind, a);
      }
    }
  }

  lemma ResetReplays(kmalloc: Kmalloc, d: Detector, p: Pools, ts: u64)
    ensures Replays(kmalloc, p, ResetVisits(d), Reset(d, p, ts).1)
  {
    hide Replays, Puts;
    var p1 := Set(p, Pseq, Give(p.pseq, |d.seqs|));
    PutsReplay(kmalloc, p, Pseq, |d.seqs|);
    PutsReplay(kmalloc, p1, Pulse, |d.pulses|);
    ReplaysConcat(kmalloc, p, Puts(Pseq, |d.seqs|), p1, Puts(Pulse, |d.pulses|), Reset(d, p, ts).1);
  }

  lemma FinishReplays(rs: RadarSpec, kmalloc: Kmalloc, d: Detector, p: Pools, ts: u64) returns (last: Answer)
    ensures var end := Finish(rs, d, ts, last);
            if CheckDetection(rs, d.seqs).Some? then end == Done(d, [])
            else
              var (d', p') := Enqueue(rs, kmalloc, d, p, ts);
              end.det == d' && Replays(kmalloc, p, end.visits, p')
  {
    hide Replays, Puts, Enqueued, Take, TakeVisits;
    last := AnswerAt(kmalloc, p, Pulse);
    TakeReplays(kmalloc, p, Pulse);
    var (ok, calls, c) := Take(kmalloc, p.calls, p.pulse);
    if ok {
      var p1 := p.(calls := calls, pulse := c);
      var n := |d.pulses| + 1 - |Enqueued(rs, d.pulses, ts)|;
      PutsReplay(kmalloc, p1, Pulse, n);
      ReplaysConcat(kmalloc, p, TakeVisits(Pulse, last), p1, Puts(Pulse, n), Set(p1, Pulse, Give(c, n)));
    }
  }

  lemma NoReplay(kmalloc: Kmalloc, p: Pools)
    ensures Replays(kmalloc, p, [], p)
  {
  }

  /** With nobody else about, these visits are add_pulse: there are answers that fit the pools, and with them the
      detector and the pools end up as they do there. */
  lemma AddPulseReplays(rs: RadarSpec, kmalloc: Kmalloc, d: Detector, p: Pools, e: PulseEvent)
    returns (answers: seq<Answer>, last: Answer)
    requires rs.ppb >= 1
    ensures OperationOk(rs, d, Feed(e, answers, last))
    ensures var done, o := Perform(rs, d, Feed(e, answers, last)), AddPulse(rs, kmalloc, d, p, e);
            done.det == o.det && Replays(kmalloc, p, done.visits, o.pools)
  {
    hide Replays, Puts, TakeManyVisits, Candidates, Extend, MaxContinued, Accepts, Finish, Enqueue, ResetVisits,
         TakeMany;
    answers, last := [], Answer(false, false);
    NoReplay(kmalloc, p);
    if Accepts(rs, d, e) {
      var ss, wanted := Extend(rs, d.seqs, e.ts), Wanted(rs, d, e.ts);
      var n := |d.seqs| - |ss|;
      var p1 := p.(pseq := Give(p.pseq, n));
      PutsReplay(kmalloc, p, Pseq, n);
      answers := TakeManyReplay(kmalloc, p1, Pseq, |wanted|);
      var (k, calls, c) := TakeMany(kmalloc, p1.calls, p1.pseq, |wanted|);
      var p2 := p1.(calls := calls, pseq := c);
      var created := Puts(Pseq, n) + TakeManyVisits(Pseq, answers);
      ReplaysConcat(kmalloc, p, Puts(Pseq, n), p1, TakeManyVisits(Pseq, answers), p2);
      var d' := WithListed(rs, d, e.ts, k);
      ResetReplays(kmalloc, d', p2, e.ts);
      ReplaysConcat(kmalloc, p, created, p2, ResetVisits(d'), Reset(d', p2, e.ts).1);
      last := FinishReplays(rs, kmalloc, d', p2, e.ts);
      AddPulseParts(rs, kmalloc, d, p, e, k, d', p2);
      var end := Finish(rs, d', e.ts, last);
      if CheckDetection(rs, d'.seqs).Some? {
        assert created + [] == created;
      } else {
        ReplaysConcat(kmalloc, p, created, p2, end.visits, Enqueue(rs, kmalloc, d', p2, e.ts).1);
      }
    }
  }

  lemma AddPulseParts(rs: RadarSpec, kmalloc: Kmalloc, d: Detector, p: Pools, e: PulseEvent, k: nat, d': Detector,
                      p2: Pools)
    requires rs.ppb >= 1 && Accepts(rs, d, e)
    requires var p1 := p.(pseq := Give(p.pseq, |d.seqs| - |Extend(rs, d.seqs, e.ts)|));
             var (n, calls, c) := TakeMany(kmalloc, p1.calls, p1.pseq, |Wanted(rs, d, e.ts)|);
             n == k && p2 == p1.(calls := calls, pseq := c) && d' == WithListed(rs, d, e.ts, k)
    ensures var o := AddPulse(rs, kmalloc, d, p, e);
            if k < |Wanted(rs, d, e.ts)| then
              o.det == Detector(e.ts, [], [], [], []) && o.pools == Reset(d', p2, e.ts).1
            else if CheckDetection(rs, d'.seqs).Some? then o.det == d' && o.pools == p2
            else (o.det, o.pools) == Enqueue(rs, kmalloc, d', p2, e.ts)
  {
    hide Candidates, Extend, MaxContinued, Accepts, Enqueue, TakeMany;
  }
}
