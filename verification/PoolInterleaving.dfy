/** Any number of detectors at work at the same time: each visit to the shared pools is one step, and any detector may
    take the next one. */
module PoolInterleaving {
  import opened DfsModel
  import opened DfsAccounting
  import opened PoolVisits

  /** A detector object: its lists as they are when the operation at work is over, what it holds now, and the visits
      of the operation that are still to come. */
  datatype Process = Gone | Process(rs: RadarSpec, det: Detector, held: Held, todo: seq<Visit>, leaving: bool)

  datatype State = State(pools: Pools, procs: seq<Process>)

  datatype Step = Init(rs: RadarSpec) | Begin(who: nat, op: Operation) | Visit(who: nat) | Depart(who: nat)

  predicate Alive(st: State, who: nat) { who < |st.procs| && st.procs[who].Process? }

  predicate Idle(st: State, who: nat) { Alive(st, who) && st.procs[who].todo == [] && !st.procs[who].leaving }

  /** Which steps can come next. The answers of an operation are fixed when it begins and must turn out to fit the pools
      at the time of the visit. */
  predicate Enabled(st: State, step: Step) {
    match step
    case Init(rs) => rs.ppb >= 1
    case Begin(i, op) =>
      Idle(st, i) && st.procs[i].rs.ppb >= 1 && OperationOk(st.procs[i].rs, st.procs[i].det, op)
    case Visit(i) => Alive(st, i) && st.procs[i].todo != [] && Answered(st.pools, st.procs[i].todo[0])
    case Depart(i) => Alive(st, i) && st.procs[i].todo == [] && st.procs[i].leaving
  }

  function Next(st: State, step: Step): State
    requires Enabled(st, step)
  {
    match step
    case Init(rs) => State(Register(st.pools), st.procs + [Process(rs, NEW_DETECTOR, Held(0, 0), [], false)])
    case Begin(i, op) =>
      var me := st.procs[i];
      var done := Perform(me.rs, me.det, op);
      State(st.pools, st.procs[i := me.(det := done.det, todo := done.visits, leaving := op.Leave?)])
    case Visit(i) =>
      var me := st.procs[i];
      State(Visited(st.pools, me.todo[0]), st.procs[i := me.(held := After(me.held, me.todo[0]), todo := me.todo[1..])])
    case Depart(i) => State(Deregister(st.pools), st.procs[i := Gone])
  }

  function Start(): State {
    State(Pools(0, 0, Counters(0, 0, 0, 0), Counters(0, 0, 0, 0), 0), [])
  }

  /** The states of a run that starts with empty pools and no detector. */
  ghost predicate IsRun(states: seq<State>, steps: seq<Step>) {
    && |states| == |steps| + 1 && states[0] == Start()
    && forall k :: 0 <= k < |steps| ==> Enabled(states[k], steps[k]) && states[k + 1] == Next(states[k], steps[k])
  }

  // ---------- what all detectors hold ----------

  function InHand(p: Process, kind: Kind): nat { if p.Gone? then 0 else Holding(p.held, kind) }

  function Sum(procs: seq<Process>, kind: Kind): nat {
    if procs == [] then 0 else Sum(procs[..|procs| - 1], kind) + InHand(procs[|procs| - 1], kind)
  }

  function Living(procs: seq<Process>): nat {
    if procs == [] then 0 else Living(procs[..|procs| - 1]) + if procs[|procs| - 1].Gone? then 0 else 1
  }

  ghost predicate Balanced(st: State) {
    Accounts(st.pools, Living(st.procs), Sum(st.procs, Pulse), Sum(st.procs, Pseq))
  }

  /** The visits to come lead from what the detector holds to the elements of its lists. */
  ghost predicate OnTrack(p: Process) {
    p.Gone? || (p.rs.ppb >= 1 && Leads(p.held, p.todo, Sizes(p.det)) && (p.leaving ==> Sizes(p.det) == Held(0, 0)))
  }

  ghost predicate AllOnTrack(st: State) { forall i :: 0 <= i < |st.procs| ==> OnTrack(st.procs[i]) }

  lemma {:induction false} SumChange(procs: seq<Process>, i: nat, p: Process, kind: Kind)
    requires i < |procs|
    ensures Sum(procs[i := p], kind) == Sum(procs, kind) - InHand(procs[i], kind) + InHand(p, kind)
    ensures Living(procs[i := p]) == Living(procs) - (if procs[i].Gone? then 0 else 1) + (if p.Gone? then 0 else 1)
  {
    hide InHand;
    var n := |procs| - 1;
    if i < n {
      SumChange(procs[..n], i, p, kind);
      assert procs[i := p][..n] == procs[..n][i := p];
    } else {
      assert procs[i := p][..n] == procs[..n];
    }
  }

  lemma Change2(procs: seq<Process>, i: nat, p: Process)
    requires i < |procs|
    ensures Sum(procs[i := p], Pulse) == Sum(procs, Pulse) - InHand(procs[i], Pulse) + InHand(p, Pulse)
    ensures Sum(procs[i := p], Pseq) == Sum(procs, Pseq) - InHand(procs[i], Pseq) + InHand(p, Pseq)
    ensures Living(procs[i := p]) == Living(procs) - (if procs[i].Gone? then 0 else 1) + (if p.Gone? then 0 else 1)
  {
    SumChange(procs, i, p, Pulse);
    SumChange(procs, i, p, Pseq);
  }

  lemma NewProcess(procs: seq<Process>, p: Process)
    ensures Sum(procs + [p], Pulse) == Sum(procs, Pulse) + InHand(p, Pulse)
    ensures Sum(procs + [p], Pseq) == Sum(procs, Pseq) + InHand(p, Pseq)
    ensures Living(procs + [p]) == Living(procs) + if p.Gone? then 0 else 1
  {
    assert (procs + [p])[..|procs|] == procs;
  }

  lemma {:induction false} LivingIsPositive(procs: seq<Process>, i: nat)
    requires i < |procs| && procs[i].Process?
    ensures Living(procs) > 0
  {
    if i < |procs| - 1 {
      LivingIsPositive(procs[..|procs| - 1], i);
    }
  }

  lemma StepKeepsTrack(st: State, step: Step)
    requires AllOnTrack(st) && Enabled(st, step)
    ensures AllOnTrack(Next(st, step))
  {
    hide OperationOk, Perform, Answered;
    match step
    case Init(rs) => NoVisits(Held(0, 0));
    case Begin(i, op) =>
      assert OnTrack(st.procs[i]);
      OperationLeads(st.procs[i].rs, st.procs[i].det, op);
    case Visit(i) => assert OnTrack(st.procs[i]);
    case Depart(i) =>
  }

  lemma VisitKeepsBalance(st: State, i: nat)
    requires AllOnTrack(st) && Balanced(st) && Enabled(st, Step.Visit(i))
    ensures Balanced(Next(st, Step.Visit(i)))
  {
    hide Sum, Living;
    assert OnTrack(st.procs[i]);
    LivingIsPositive(st.procs, i);
    Change2(st.procs, i, Next(st, Step.Visit(i)).procs[i]);
  }

  lemma StepKeepsBalance(st: State, step: Step)
    requires AllOnTrack(st) && Balanced(st) && Enabled(st, step)
    ensures Balanced(Next(st, step))
  {
    hide Sum, Living, OperationOk, Perform;
    match step
    case Init(rs) => NewProcess(st.procs, Process(rs, NEW_DETECTOR, Held(0, 0), [], false));
    case Begin(i, op) => Change2(st.procs, i, Next(st, step).procs[i]);
    case Visit(i) => VisitKeepsBalance(st, i);
    case Depart(i) =>
      assert OnTrack(st.procs[i]);
      Change2(st.procs, i, Gone);
      assert InHand(st.procs[i], Pulse) == InHand(st.procs[i], Pseq) == 0;
  }

  /** In every state of every interleaving of whole operations: the counters agree with what all detectors hold
      together, and each detector is on its way to hold exactly the elements of its lists. */
  lemma {:induction false} RunKeepsBalance(states: seq<State>, steps: seq<Step>, k: nat)
    requires IsRun(states, steps) && k < |states|
    ensures Balanced(states[k]) && AllOnTrack(states[k])
  {
    hide Balanced, AllOnTrack, Next, Enabled;
    if k == 0 {
      StartIsBalanced();
    } else {
      RunKeepsBalance(states, steps, k - 1);
      StepKeepsBalance(states[k - 1], steps[k - 1]);
      StepKeepsTrack(states[k - 1], steps[k - 1]);
    }
  }

  lemma StartIsBalanced()
    ensures Balanced(Start()) && AllOnTrack(Start())
  {
  }

  /** A put in a run gives back an object that its detector holds and the pools count as used. */
  lemma PutsAreOwned(states: seq<State>, steps: seq<Step>, k: nat)
    requires IsRun(states, steps) && k < |steps| && steps[k].Visit?
    requires states[k].procs[steps[k].who].todo[0].Put?
    ensures var st, i := states[k], steps[k].who;
            var kind := st.procs[i].todo[0].kind;
            1 <= Holding(st.procs[i].held, kind) <= Of(st.pools, kind).used
  {
    hide Next, Sum;
    RunKeepsBalance(states, steps, k);
    var st, i := states[k], steps[k].who;
    assert OnTrack(st.procs[i]);
    SumIncludes(st.procs, i, Pulse);
    SumIncludes(st.procs, i, Pseq);
  }

  lemma {:induction false} SumIncludes(procs: seq<Process>, i: nat, kind: Kind)
    requires i < |procs|
    ensures Sum(procs, kind) >= InHand(procs[i], kind)
  {
    hide InHand;
    if i < |procs| - 1 {
      SumIncludes(procs[..|procs| - 1], i, kind);
    }
  }

  /** The elements in the lists of all detectors. */
  function Queued(procs: seq<Process>): nat {
    if procs == [] then 0
    else
      var p := procs[|procs| - 1];
      Queued(procs[..|procs| - 1]) + if p.Gone? then 0 else |p.det.pulses|
  }

  function Sequenced(procs: seq<Process>): nat {
    if procs == [] then 0
    else
      var p := procs[|procs| - 1];
      Sequenced(procs[..|procs| - 1]) + if p.Gone? then 0 else |p.det.seqs|
  }

  ghost predicate AllIdle(procs: seq<Process>) {
    forall i :: 0 <= i < |procs| && procs[i].Process? ==> procs[i].todo == []
  }

  lemma {:induction false} IdleSums(procs: seq<Process>)
    requires AllIdle(procs) && forall i :: 0 <= i < |procs| ==> OnTrack(procs[i])
    ensures Sum(procs, Pulse) == Queued(procs) && Sum(procs, Pseq) == Sequenced(procs)
  {
    if procs != [] {
      IdleSums(procs[..|procs| - 1]);
      assert OnTrack(procs[|procs| - 1]);
    }
  }

  /** Between operations, the objects in use are exactly the elements of all queues and of all lists of sequences. */
  lemma UsedIsListed(states: seq<State>, steps: seq<Step>, k: nat)
    requires IsRun(states, steps) && k < |states| && AllIdle(states[k].procs)
    ensures var st := states[k];
            && st.pools.pulse.used == Queued(st.procs) && st.pools.pseq.used == Sequenced(st.procs)
            && st.pools.pulse.allocs == Queued(st.procs) + st.pools.pulse.free
            && st.pools.pseq.allocs == Sequenced(st.procs) + st.pools.pseq.free
            && st.pools.references == st.pools.poolReference == Living(st.procs)
  {
    hide Next, Enabled, OnTrack, Queued, Sequenced, Sum, Living;
    RunKeepsBalance(states, steps, k);
    IdleSums(states[k].procs);
  }

  /** Whenever no detector is left, the object counters are zero and both pools are empty. */
  lemma NothingOutlivesDetectors(states: seq<State>, steps: seq<Step>, k: nat)
    requires IsRun(states, steps) && k < |states| && forall i :: 0 <= i < |states[k].procs| ==> states[k].procs[i].Gone?
    ensures var p := states[k].pools;
            && p.pulse.free == p.pulse.allocs == p.pulse.used == 0
            && p.pseq.free == p.pseq.allocs == p.pseq.used == 0
            && p.references == p.poolReference == 0
  {
    hide Next, Enabled, OnTrack;
    RunKeepsBalance(states, steps, k);
    GoneHoldNothing(states[k].procs);
  }

  lemma {:induction false} GoneHoldNothing(procs: seq<Process>)
    requires forall i :: 0 <= i < |procs| ==> procs[i].Gone?
    ensures Sum(procs, Pulse) == Sum(procs, Pseq) == Living(procs) == 0
  {
    if procs != [] {
      GoneHoldNothing(procs[..|procs| - 1]);
    }
  }
}
