/** Pool accounting over whole runs of a pattern detector, next to any other users of the pools. */
module PatternAccounting {
  import opened Options
  import opened MachineWords
  import opened DfsModel
  import opened DfsAccounting
  import opened DfsTables
  import opened PatternModel
  import opened PatternSafety

  // ---------- what is held in all ----------

  function PulsesHeld(dets: seq<Detector>): nat {
    if dets == [] then 0 else PulsesHeld(dets[..|dets| - 1]) + |dets[|dets| - 1].pulses|
  }

  function SeqsHeld(dets: seq<Detector>): nat {
    if dets == [] then 0 else SeqsHeld(dets[..|dets| - 1]) + |dets[|dets| - 1].seqs|
  }

  function AllDetectors(channels: seq<Channel>): seq<Detector> {
    if channels == [] then [] else AllDetectors(channels[..|channels| - 1]) + channels[|channels| - 1].dets
  }

  lemma {:induction false} HeldConcat(a: seq<Detector>, b: seq<Detector>)
    ensures PulsesHeld(a + b) == PulsesHeld(a) + PulsesHeld(b) && SeqsHeld(a + b) == SeqsHeld(a) + SeqsHeld(b)
  {
    if b == [] {
      assert a + b == a;
    } else {
      var n := |b| - 1;
      HeldConcat(a, b[..n]);
      assert (a + b)[..|a + b| - 1] == a + b[..n];
    }
  }

  lemma HeldUpdate(dets: seq<Detector>, i: nat, d: Detector)
    requires i < |dets|
    ensures PulsesHeld(dets[i := d]) == PulsesHeld(dets) - |dets[i].pulses| + |d.pulses|
    ensures SeqsHeld(dets[i := d]) == SeqsHeld(dets) - |dets[i].seqs| + |d.seqs|
  {
  }

  lemma {:induction false} NewHoldNothing(n: nat)
    ensures PulsesHeld(NewDetectors(n)) == 0 && SeqsHeld(NewDetectors(n)) == 0
  {
    if n > 0 {
      NewHoldNothing(n - 1);
      assert NewDetectors(n)[..n - 1] == NewDetectors(n - 1);
    }
  }

  /** The pools agree with these detectors, next to `n` others that hold `q` pulses and `s` sequences. */
  ghost predicate AccountsFor(p: Pools, dets: seq<Detector>, n: nat, q: int, s: int) {
    Accounts(p, n + |dets|, q + PulsesHeld(dets), s + SeqsHeld(dets))
  }

  /** Part of the detectors may as well be counted among the others. */
  lemma AccountsSplit(p: Pools, a: seq<Detector>, b: seq<Detector>, n: nat, q: int, s: int)
    ensures AccountsFor(p, a + b, n, q, s) <==> AccountsFor(p, a, n + |b|, q + PulsesHeld(b), s + SeqsHeld(b))
    ensures AccountsFor(p, a + b, n, q, s) <==> AccountsFor(p, b, n + |a|, q + PulsesHeld(a), s + SeqsHeld(a))
  {
    HeldConcat(a, b);
    hide PulsesHeld, SeqsHeld;
  }

  // ---------- operations on the detectors of one channel ----------

  lemma {:induction false} InitAccounts(kmalloc: Kmalloc, p: Pools, m: nat, n: nat, q: int, s: int)
    requires Accounts(p, n, q, s)
    ensures var (k, p') := InitDetectors(kmalloc, p, m); Accounts(p', n + k, q, s)
    decreases m
  {
    if m > 0 {
      var (ok, p1) := Kmalloc1(kmalloc, p);
      if ok {
        InitAccounts(kmalloc, Register(p1), m - 1, n + 1, q, s);
      }
    }
  }

  lemma {:induction false} ExitAllAccounts(dets: seq<Detector>, p: Pools, n: nat, q: int, s: int)
    requires AccountsFor(p, dets, n, q, s)
    ensures Accounts(ExitDetectors(dets, p), n, q, s)
  {
    if dets != [] {
      var m := |dets| - 1;
      var d := dets[m];
      ExitAllAccounts(dets[..m], p, n + 1, q + |d.pulses|, s + |d.seqs|);
      ExitAccounts(d, ExitDetectors(dets[..m], p), n + 1, q, s);
    }
  }

  lemma {:induction false} ResetAllAccounts(dets: seq<Detector>, p: Pools, ts: u64, n: nat, q: int, s: int)
    requires AccountsFor(p, dets, n, q, s)
    ensures var (dets', p') := ResetDetectors(dets, p, ts);
            PulsesHeld(dets') == 0 && SeqsHeld(dets') == 0 && AccountsFor(p', dets', n, q, s)
  {
    if dets != [] {
      var m := |dets| - 1;
      var d := dets[m];
      var (front, p1) := ResetDetectors(dets[..m], p, ts);
      ResetAllAccounts(dets[..m], p, ts, n + 1, q + |d.pulses|, s + |d.seqs|);
      ResetAccounts(d, p1, ts, n + 1 + m, q, s);
      var dets' := ResetDetectors(dets, p, ts).0;
      assert dets'[..m] == front;
    }
  }

  /** One detector of the channel sees the pulse, and is reset if it reports. */
  lemma ListenAccounts(rs: RadarSpec, kmalloc: Kmalloc, dets: seq<Detector>, i: nat, p: Pools, e: PulseEvent,
                       n: nat, q: int, s: int)
    requires rs.ppb >= 1 && i < |dets| && AccountsFor(p, dets, n, q, s)
    ensures var o := AddPulse(rs, kmalloc, dets[i], p, e);
            var (d, p') := Reset(o.det, o.pools, e.ts);
            AccountsFor(o.pools, dets[i := o.det], n, q, s) && AccountsFor(p', dets[i := d], n, q, s)
  {
    hide AddPulse, PulsesHeld, SeqsHeld, Accounts, Reset;
    var d := dets[i];
    var o := AddPulse(rs, kmalloc, d, p, e);
    var q0, s0 := q + PulsesHeld(dets) - |d.pulses|, s + SeqsHeld(dets) - |d.seqs|;
    AddPulseAccounts(rs, kmalloc, d, p, e, n + |dets|, q0, s0);
    HeldUpdate(dets, i, o.det);
    ResetAccounts(o.det, o.pools, e.ts, n + |dets|, q0, s0);
    ResetHoldsNothing(o.det, o.pools, e.ts);
    HeldUpdate(dets, i, Reset(o.det, o.pools, e.ts).0);
  }

  lemma ResetHoldsNothing(d: Detector, p: Pools, ts: u64)
    ensures Reset(d, p, ts).0.pulses == [] && Reset(d, p, ts).0.seqs == []
  {
  }

  lemma {:induction false} MatchAccounts(kmalloc: Kmalloc, specs: seq<RadarSpec>, dets: seq<Detector>, p: Pools,
                                         e: PulseEvent, i: nat, n: nat, q: int, s: int)
    requires |dets| == |specs| && i <= |specs| && forall j :: 0 <= j < |specs| ==> specs[j].ppb >= 1
    requires AccountsFor(p, dets, n, q, s)
    ensures var (dets', p', _) := Match(kmalloc, specs, dets, p, e, i); AccountsFor(p', dets', n, q, s)
    decreases |specs| - i
  {
    hide AddPulse, AccountsFor, Reset;
    if i < |specs| {
      ListenAccounts(specs[i], kmalloc, dets, i, p, e, n, q, s);
      var o := AddPulse(specs[i], kmalloc, dets[i], p, e);
      if o.radar == None {
        MatchAccounts(kmalloc, specs, dets[i := o.det], o.pools, e, i + 1, n, q, s);
      }
    }
  }

  // ---------- operations on all channels ----------

  lemma {:induction false} AllConcat(a: seq<Channel>, b: seq<Channel>)
    ensures AllDetectors(a + b) == AllDetectors(a) + AllDetectors(b)
  {
    if b == [] {
      assert a + b == a;
    } else {
      var n := |b| - 1;
      AllConcat(a, b[..n]);
      assert (a + b)[..|a + b| - 1] == a + b[..n];
    }
  }

  lemma AllOne(ch: Channel)
    ensures AllDetectors([ch]) == ch.dets
  {
    assert [ch][..0] == [];
  }

  /** One channel next to the others: its detectors are a middle part of all of them. */
  lemma SplitChannels(channels: seq<Channel>, c: nat, ch: Channel)
    requires c < |channels|
    ensures AllDetectors(channels[c := ch]) ==
            AllDetectors(channels[..c]) + ch.dets + AllDetectors(channels[c + 1..])
  {
    AllOne(ch);
    AllConcat(channels[..c], [ch]);
    AllConcat(channels[..c] + [ch], channels[c + 1..]);
    assert channels[c := ch] == channels[..c] + [ch] + channels[c + 1..];
  }

  /** What is held by a middle part and around it. */
  lemma HeldMiddle(a: seq<Detector>, b: seq<Detector>, c: seq<Detector>)
    ensures PulsesHeld(a + b + c) == PulsesHeld(a) + PulsesHeld(b) + PulsesHeld(c)
    ensures SeqsHeld(a + b + c) == SeqsHeld(a) + SeqsHeld(b) + SeqsHeld(c)
  {
    HeldConcat(a, b);
    HeldConcat(a + b, c);
  }

  lemma CreateChannelAccounts(kmalloc: Kmalloc, p: Pools, specs: seq<RadarSpec>, freq: nat, n: nat, q: int, s: int)
    requires Accounts(p, n, q, s)
    ensures var (ch, p') := CreateChannel(kmalloc, p, specs, freq);
            AccountsFor(p', if ch.Some? then ch.value.dets else [], n, q, s)
  {
    var (ok1, p1) := Kmalloc1(kmalloc, p);
    var (ok2, p2) := Kmalloc1(kmalloc, p1);
    InitAccounts(kmalloc, p2, |specs|, n, q, s);
    var (k, p3) := InitDetectors(kmalloc, p2, |specs|);
    NewHoldNothing(k);
    ExitAllAccounts(NewDetectors(k), p3, n, q, s);
  }

  ghost predicate PatternAccounts(pd: Pattern, p: Pools, n: nat, q: int, s: int) {
    AccountsFor(p, AllDetectors(pd.channels), n, q, s)
  }

  lemma GetChannelAccounts(kmalloc: Kmalloc, pd: Pattern, p: Pools, freq: nat, n: nat, q: int, s: int)
    requires PatternAccounts(pd, p, n, q, s)
    ensures var (_, pd', p') := GetChannel(kmalloc, pd, p, freq); PatternAccounts(pd', p', n, q, s)
  {
    hide CreateChannel, PulsesHeld, SeqsHeld, AllDetectors;
    if FindChannel(pd.channels, freq) == |pd.channels| {
      var rest := AllDetectors(pd.channels);
      var (ch, p') := CreateChannel(kmalloc, p, pd.specs, freq);
      CreateChannelAccounts(kmalloc, p, pd.specs, freq, n + |rest|, q + PulsesHeld(rest), s + SeqsHeld(rest));
      HeldNone();
      if ch.Some? {
        AllOne(ch.value);
        AllConcat([ch.value], pd.channels);
        HeldConcat(ch.value.dets, rest);
      }
    }
  }

  lemma HeldNone()
    ensures PulsesHeld([]) == 0 && SeqsHeld([]) == 0
  {
  }

  lemma {:induction false} ResetChannelsAccounts(channels: seq<Channel>, p: Pools, ts: u64, n: nat, q: int, s: int)
    requires AccountsFor(p, AllDetectors(channels), n, q, s)
    ensures var (channels', p') := ResetChannels(channels, p, ts);
            AccountsFor(p', AllDetectors(channels'), n, q, s)
    ensures var all := AllDetectors(ResetChannels(channels, p, ts).0);
            PulsesHeld(all) == 0 && SeqsHeld(all) == 0 && |all| == |AllDetectors(channels)|
  {
    hide PulsesHeld, SeqsHeld, AccountsFor, AllDetectors, ResetChannels, ResetDetectors;
    if channels != [] {
      var m := |channels| - 1;
      ChannelsUnfold(channels, p, ts);
      var dets, front := channels[m].dets, AllDetectors(channels[..m]);
      AccountsSplit(p, front, dets, n, q, s);
      ResetChannelsAccounts(channels[..m], p, ts, n + |dets|, q + PulsesHeld(dets), s + SeqsHeld(dets));
      var (channels1, p1) := ResetChannels(channels[..m], p, ts);
      var front' := AllDetectors(channels1);
      AccountsSplit(p1, front', dets, n, q, s);
      ResetAllAccounts(dets, p1, ts, n + |front'|, q + PulsesHeld(front'), s + SeqsHeld(front'));
      var (dets', p2) := ResetDetectors(dets, p1, ts);
      AccountsSplit(p2, front', dets', n, q, s);
      HeldConcat(front', dets');
      AllPushed(channels1, channels[m].(dets := dets'));
    } else {
      NoChannels(p, ts);
      HeldNone();
    }
  }

  lemma NoChannels(p: Pools, ts: u64)
    ensures AllDetectors([]) == [] && ResetChannels([], p, ts) == ([], p)
  {
  }

  lemma ChannelsUnfold(channels: seq<Channel>, p: Pools, ts: u64)
    requires channels != []
    ensures var ch, before := channels[|channels| - 1], channels[..|channels| - 1];
            var (front, p1) := ResetChannels(before, p, ts);
            var (dets, p2) := ResetDetectors(ch.dets, p1, ts);
            && AllDetectors(channels) == AllDetectors(before) + ch.dets
            && ResetChannels(channels, p, ts) == (front + [ch.(dets := dets)], p2)
  {
  }

  lemma AllPushed(channels: seq<Channel>, ch: Channel)
    ensures AllDetectors(channels + [ch]) == AllDetectors(channels) + ch.dets
  {
    assert (channels + [ch])[..|channels|] == channels;
  }

  lemma {:induction false} ExitChannelsAccounts(channels: seq<Channel>, p: Pools, n: nat, q: int, s: int)
    requires AccountsFor(p, AllDetectors(channels), n, q, s)
    ensures Accounts(ExitChannels(channels, p), n, q, s)
  {
    if channels != [] {
      hide PulsesHeld, SeqsHeld;
      var m := |channels| - 1;
      var dets, front := channels[m].dets, AllDetectors(channels[..m]);
      HeldConcat(front, dets);
      ExitChannelsAccounts(channels[..m], p, n + |dets|, q + PulsesHeld(dets), s + SeqsHeld(dets));
      ExitAllAccounts(dets, ExitChannels(channels[..m], p), n, q, s);
    } else {
      HeldNone();
    }
  }

  lemma RewindAccounts(pd: Pattern, p: Pools, ts: u64, n: nat, q: int, s: int)
    requires PatternAccounts(pd, p, n, q, s)
    ensures var (pd', p') := Rewind(pd, p, ts); PatternAccounts(pd', p', n, q, s)
  {
    ResetChannelsAccounts(pd.channels, p, pd.lastTs, n, q, s);
  }

  /** Matching on one channel accounts for itself next to all the other channels. */
  lemma MatchChannelAccounts(kmalloc: Kmalloc, pd: Pattern, p: Pools, c: nat, e: PulseEvent, n: nat, q: int, s: int)
    requires Shaped(pd) && c < |pd.channels| && PatternAccounts(pd, p, n, q, s)
    ensures var ch := pd.channels[c];
            var (dets, p', _) := Match(kmalloc, pd.specs, ch.dets, p, e, 0);
            AccountsFor(p', AllDetectors(pd.channels[c := ch.(dets := dets)]), n, q, s)
  {
    hide Match, PulsesHeld, SeqsHeld, AllDetectors;
    var ch := pd.channels[c];
    var (dets, p', _) := Match(kmalloc, pd.specs, ch.dets, p, e, 0);
    var before, after := AllDetectors(pd.channels[..c]), AllDetectors(pd.channels[c + 1..]);
    assert pd.channels[c := ch] == pd.channels;
    SplitChannels(pd.channels, c, ch);
    SplitChannels(pd.channels, c, ch.(dets := dets));
    HeldMiddle(before, ch.dets, after);
    HeldMiddle(before, dets, after);
    MatchAccounts(kmalloc, pd.specs, ch.dets, p, e, 0, n + |before| + |after|,
                  q + PulsesHeld(before) + PulsesHeld(after), s + SeqsHeld(before) + SeqsHeld(after));
  }

  lemma PatternAddPulseAccounts(kmalloc: Kmalloc, pd: Pattern, p: Pools, e: PulseEvent, n: nat, q: int, s: int)
    requires Shaped(pd) && PatternAccounts(pd, p, n, q, s)
    ensures var v := PatternAddPulse(kmalloc, pd, p, e); PatternAccounts(v.pattern, v.pools, n, q, s)
  {
    hide GetChannel, Rewind, Match, AccountsFor;
    if pd.region != Unset {
      GetChannelKeepsShape(kmalloc, pd, p, e.freq);
      GetChannelAccounts(kmalloc, pd, p, e.freq, n, q, s);
      var (at, pd1, p1) := GetChannel(kmalloc, pd, p, e.freq);
      if at.Some? {
        RewindKeepsShape(pd1, p1, e.ts);
        RewindAccounts(pd1, p1, e.ts, n, q, s);
        var (pd2, p2) := Rewind(pd1, p1, e.ts);
        MatchChannelAccounts(kmalloc, pd2, p2, at.value, e, n, q, s);
      }
    }
  }

  lemma SetDomainAccounts(pd: Pattern, p: Pools, region: Region, n: nat, q: int, s: int)
    requires PatternAccounts(pd, p, n, q, s)
    ensures var (pd', p', _) := SetDomain(pd, p, region); PatternAccounts(pd', p', n, q, s)
  {
    ExitChannelsAccounts(pd.channels, p, n, q, s);
  }

  /** Over every run, with any others using the pools, the counters equal what is held: pulse objects in use are
      all queue lengths together, sequence objects in use all list lengths, references all live detectors. */
  lemma {:induction false} RunAccounts(kmalloc: Kmalloc, pd: Pattern, p: Pools, ops: seq<Op>, n: nat, q: int, s: int)
    requires PatternInv(pd) && PatternAccounts(pd, p, n, q, s)
    ensures var (pd', p') := Run(kmalloc, pd, p, ops); PatternAccounts(pd', p', n, q, s)
  {
    hide PatternAccounts, PatternAddPulse, SetDomain, ChannelsOk;
    if ops != [] {
      RunAccounts(kmalloc, pd, p, ops[..|ops| - 1], n, q, s);
      var (pd1, p1) := Run(kmalloc, pd, p, ops[..|ops| - 1]);
      match ops[|ops| - 1]
      case Pulse(e) => PatternAddPulseAccounts(kmalloc, pd1, p1, e, n, q, s);
      case Domain(region) => SetDomainAccounts(pd1, p1, region, n, q, s);
    }
  }

  const EMPTY_POOLS := Pools(0, 0, Counters(0, 0, 0, 0), Counters(0, 0, 0, 0), 0)

  lemma EmptyPoolsAccount()
    ensures PatternAccounts(NEW_PATTERN, EMPTY_POOLS, 0, 0, 0)
  {
    HeldNone();
  }

  /** A pattern detector alone with the pools: after any run, and the destructor, everything is free again. */
  lemma RunThenExitLeavesNothing(kmalloc: Kmalloc, ops: seq<Op>)
    ensures PatternInv(NEW_PATTERN)
    ensures var (pd, p) := Run(kmalloc, NEW_PATTERN, EMPTY_POOLS, ops);
            var p' := ExitChannels(pd.channels, p);
            && p'.references == p'.poolReference == 0
            && p'.pulse == Counters(0, 0, 0, p'.pulse.errors) && p'.pseq == Counters(0, 0, 0, p'.pseq.errors)
  {
    hide Run, ExitChannels, AccountsFor;
    EmptyPoolsAccount();
    RunAccounts(kmalloc, NEW_PATTERN, EMPTY_POOLS, ops, 0, 0, 0);
    var (pd, p) := Run(kmalloc, NEW_PATTERN, EMPTY_POOLS, ops);
    ExitChannelsAccounts(pd.channels, p, 0, 0, 0);
    NothingLeft(ExitChannels(pd.channels, p));
  }
}
