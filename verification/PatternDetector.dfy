/** The pattern detector object; every method computes its counterpart in PatternModel. */
module PatternDetectors {
  import opened Options
  import opened MachineWords
  import opened DfsModel
  import opened DfsPools
  import opened PriDetectors
  import opened DfsTables
  import opened PatternModel

  ghost function States(ds: seq<PriDetector>): (r: seq<Detector>)
    reads ds
    ensures |r| == |ds| && forall i :: 0 <= i < |ds| ==> r[i] == ds[i].State()
  {
    seq(|ds|, i requires 0 <= i < |ds| reads ds => ds[i].State())
  }

  ghost predicate Distinct(ds: seq<PriDetector>) {
    forall i, j :: 0 <= i < j < |ds| ==> ds[i] != ds[j]
  }

  class ChannelDetector {
    const freq: nat
    const pool: Pool
    const specs: seq<RadarSpec>
    const detectors: seq<PriDetector>

    ghost predicate Valid()
      reads detectors
    {
      && |detectors| == |specs| && Distinct(detectors)
      && forall i :: 0 <= i < |detectors| ==>
           detectors[i].Valid() && detectors[i].rs == specs[i] && detectors[i].pool == pool
    }

    ghost function State(): Channel
      reads detectors
    {
      Channel(freq, States(detectors))
    }

    constructor (freq: nat, pool: Pool, specs: seq<RadarSpec>, detectors: seq<PriDetector>)
      ensures this.freq == freq && this.pool == pool && this.specs == specs && this.detectors == detectors
    {
      this.freq, this.pool, this.specs, this.detectors := freq, pool, specs, detectors;
    }

    method Reset(ts: u64)
      requires Valid()
      modifies detectors, pool
      ensures Valid()
      ensures (States(detectors), pool.View()) == ResetDetectors(old(States(detectors)), old(pool.View()), ts)
    {
      hide Resetting, ResetDetectors;
      ghost var before := States(detectors);
      var i := 0;
      ResettingStart(before, pool.View(), ts);
      while i < |detectors|
        invariant 0 <= i <= |detectors| && Valid()
        invariant Resetting(before, i, States(detectors), old(pool.View()), pool.View(), ts)
      {
        ResettingStep(before, i, States(detectors), old(pool.View()), pool.View(), ts);
        ghost var was := States(detectors);
        detectors[i].Reset(ts);
        OneChanged(detectors, i, was, States(detectors));
        i := i + 1;
      }
      ResettingEnd(before, States(detectors), old(pool.View()), pool.View(), ts);
    }

    /** The destructor: give everything back and drop the pool references. */
    method Exit()
      requires Valid()
      modifies detectors, pool
      ensures pool.View() == ExitDetectors(old(States(detectors)), old(pool.View()))
    {
      hide ExitDetectors;
      ghost var before := States(detectors);
      var i := 0;
      ExitStart(before, pool.View());
      while i < |detectors|
        invariant 0 <= i <= |detectors| && Valid()
        invariant pool.View() == ExitDetectors(before[..i], old(pool.View()))
        invariant forall j :: i <= j < |detectors| ==> detectors[j].State() == before[j]
      {
        ExitStep(before, i, old(pool.View()));
        detectors[i].Exit();
        i := i + 1;
      }
      assert before[..|detectors|] == before;
    }

    /** Feed a pulse to the detectors in turn until one reports radar; that one is reset. */
    method Match(event: PulseEvent) returns (fired: Option<nat>)
      requires Valid() && forall j :: 0 <= j < |specs| ==> specs[j].ppb >= 1
      modifies detectors, pool
      ensures Valid()
      ensures (States(detectors), pool.View(), fired) ==
              PatternModel.Match(pool.kmalloc, specs, old(States(detectors)), old(pool.View()), event, 0)
    {
      hide DfsModel.AddPulse, DfsModel.Reset, PatternModel.Match, States;
      ghost var all := PatternModel.Match(pool.kmalloc, specs, States(detectors), pool.View(), event, 0);
      var i := 0;
      while i < |detectors|
        invariant 0 <= i <= |detectors| && Valid()
        invariant all == PatternModel.Match(pool.kmalloc, specs, States(detectors), pool.View(), event, i)
      {
        MatchStep(pool.kmalloc, specs, States(detectors), pool.View(), event, i);
        var reports := Offer(i, event);
        if reports {
          return Some(i);
        }
        i := i + 1;
      }
      MatchEnd(pool.kmalloc, specs, States(detectors), pool.View(), event);
      return None;
    }

    /** Feed a pulse to detector number i, and reset it if it reports radar. */
    method Offer(i: nat, event: PulseEvent) returns (reports: bool)
      requires Valid() && i < |detectors| && specs[i].ppb >= 1
      modifies detectors, pool
      ensures Valid()
      ensures var was := old(States(detectors));
              var o := DfsModel.AddPulse(specs[i], pool.kmalloc, was[i], old(pool.View()), event);
              var (d, p) := DfsModel.Reset(o.det, o.pools, event.ts);
              && reports == o.radar.Some?
              && States(detectors) == was[i := if reports then d else o.det]
              && pool.View() == if reports then p else o.pools
    {
      hide DfsModel.AddPulse, DfsModel.Reset, States;
      ghost var was := States(detectors);
      var ps := detectors[i].AddPulse(event);
      OneChanged(detectors, i, was, States(detectors));
      if ps.Some? {
        ghost var now := States(detectors);
        detectors[i].Reset(event.ts);
        OneChanged(detectors, i, now, States(detectors));
      }
      return ps.Some?;
    }
  }

  lemma MatchStep(kmalloc: Kmalloc, specs: seq<RadarSpec>, dets: seq<Detector>, p: Pools, e: PulseEvent, i: nat)
    requires |dets| == |specs| && i < |specs| && forall j :: 0 <= j < |specs| ==> specs[j].ppb >= 1
    ensures var o := AddPulse(specs[i], kmalloc, dets[i], p, e);
            var (d, p') := DfsModel.Reset(o.det, o.pools, e.ts);
            PatternModel.Match(kmalloc, specs, dets, p, e, i) ==
            if o.radar.Some? then (dets[i := d], p', Some(i))
            else PatternModel.Match(kmalloc, specs, dets[i := o.det], o.pools, e, i + 1)
  {
    hide DfsModel.AddPulse, DfsModel.Reset;
  }

  lemma MatchEnd(kmalloc: Kmalloc, specs: seq<RadarSpec>, dets: seq<Detector>, p: Pools, e: PulseEvent)
    requires |dets| == |specs| && forall j :: 0 <= j < |specs| ==> specs[j].ppb >= 1
    ensures PatternModel.Match(kmalloc, specs, dets, p, e, |specs|) == (dets, p, None)
  {
  }

  lemma ExitStart(before: seq<Detector>, p: Pools)
    ensures ExitDetectors(before[..0], p) == p
  {
  }

  lemma ExitStep(before: seq<Detector>, i: nat, p: Pools)
    requires i < |before|
    ensures ExitDetectors(before[..i + 1], p) ==
            Deregister(DfsModel.Reset(before[i], ExitDetectors(before[..i], p), 0).1)
  {
    assert before[..i + 1][..i] == before[..i];
  }

  /** The first i of these detectors are reset. */
  ghost predicate Resetting(before: seq<Detector>, i: nat, now: seq<Detector>, p0: Pools, p: Pools, ts: u64) {
    && i <= |before| == |now|
    && ResetDetectors(before[..i], p0, ts) == (now[..i], p)
    && now[i..] == before[i..]
  }

  lemma ResettingStart(before: seq<Detector>, p: Pools, ts: u64)
    ensures Resetting(before, 0, before, p, p, ts)
  {
  }

  lemma ResettingStep(before: seq<Detector>, i: nat, now: seq<Detector>, p0: Pools, p: Pools, ts: u64)
    requires Resetting(before, i, now, p0, p, ts) && i < |before|
    ensures |now| == |before|
    ensures var (d, p') := DfsModel.Reset(now[i], p, ts); Resetting(before, i + 1, now[i := d], p0, p', ts)
  {
    hide DfsModel.Reset;
    assert now[i] == now[i..][0] == before[i..][0] == before[i];
    assert before[..i + 1][..i] == before[..i];
    var (d, p') := DfsModel.Reset(now[i], p, ts);
    assert ResetDetectors(before[..i + 1], p0, ts) == (now[..i] + [d], p');
    assert now[i := d][..i + 1] == now[..i] + [d];
    assert now[i := d][i + 1..] == now[i..][1..] == before[i..][1..] == before[i + 1..];
  }

  lemma ResettingEnd(before: seq<Detector>, now: seq<Detector>, p0: Pools, p: Pools, ts: u64)
    requires Resetting(before, |before|, now, p0, p, ts)
    ensures (now, p) == ResetDetectors(before, p0, ts)
  {
    assert before[..|before|] == before && now[..|before|] == now;
  }

  /** A step of one detector changes one place of the states. */
  lemma OneChanged(ds: seq<PriDetector>, i: nat, was: seq<Detector>, now: seq<Detector>)
    requires i < |ds| == |was| == |now|
    requires forall j :: 0 <= j < |ds| && j != i ==> now[j] == was[j]
    ensures now == was[i := now[i]]
  {
  }

  ghost function ChannelStates(channels: seq<ChannelDetector>): (r: seq<Channel>)
    reads set c, i | 0 <= c < |channels| && 0 <= i < |channels[c].detectors| :: channels[c].detectors[i]
    ensures |r| == |channels| && forall c :: 0 <= c < |channels| ==> r[c] == channels[c].State()
  {
    if channels == [] then [] else [channels[0].State()] + ChannelStates(channels[1..])
  }

  lemma StatesPush(ch: ChannelDetector, channels: seq<ChannelDetector>)
    ensures ChannelStates([ch] + channels) == [ch.State()] + ChannelStates(channels)
  {
  }

  twostate lemma SameStates(channels: seq<ChannelDetector>)
    requires forall j :: 0 <= j < |channels| ==> channels[j].State() == old(channels[j].State())
    ensures ChannelStates(channels) == old(ChannelStates(channels))
  {
  }

  twostate lemma Untouched(ch: ChannelDetector)
    requires forall d | d in ch.detectors :: unchanged(d)
    ensures ch.Valid() == old(ch.Valid()) && ch.State() == old(ch.State())
  {
    assert forall i :: 0 <= i < |ch.detectors| ==> ch.detectors[i] in ch.detectors;
  }

  /** No detector serves two channels. */
  ghost predicate Separate(channels: seq<ChannelDetector>) {
    forall c, c', d :: 0 <= c < c' < |channels| && d in channels[c].detectors ==> d !in channels[c'].detectors
  }

  class PatternDetector {
    const pool: Pool
    var region: Region
    var lastPulseTs: u64
    var radarSpec: seq<RadarSpec>
    var channels: seq<ChannelDetector>

    ghost function Detectors(): set<PriDetector>
      reads this
    {
      set c, i | 0 <= c < |channels| && 0 <= i < |channels[c].detectors| :: channels[c].detectors[i]
    }

    ghost predicate Valid()
      reads this, Detectors()
    {
      && (forall c :: 0 <= c < |channels| ==>
            channels[c].Valid() && channels[c].specs == radarSpec && channels[c].pool == pool)
      && Separate(channels)
    }

    ghost function State(): Pattern
      reads this, Detectors()
    {
      Pattern(region, lastPulseTs, radarSpec, ChannelStates(channels))
    }

    constructor (pool: Pool)
      ensures Valid() && State() == NEW_PATTERN && this.pool == pool
    {
      this.pool := pool;
      region, lastPulseTs, radarSpec, channels := Unset, 0, [], [];
    }

    /** Allocate and list a channel; on a failure everything created so far is destroyed again. */
    method CreateChannel(freq: nat) returns (cd: ChannelDetector?)
      requires Valid() && forall j :: 0 <= j < |radarSpec| ==> radarSpec[j].ppb >= 1
      modifies this`channels, pool
      ensures var (ch, p') := PatternModel.CreateChannel(pool.kmalloc, old(pool.View()), radarSpec, freq);
              && pool.View() == p'
              && (cd == null <==> ch.None?)
              && (cd == null ==> channels == old(channels))
              && (cd != null ==> IsNewChannel(cd, ch.value) && channels == [cd] + old(channels))
      ensures cd != null ==> fresh(cd) && forall i :: 0 <= i < |cd.detectors| ==> fresh(cd.detectors[i])
    {
      hide InitDetectors, ExitDetectors, Distinct;
      cd := null;
      var ok := pool.Kmalloc();
      if !ok {
        return;
      }
      ok := pool.Kmalloc();
      if !ok {
        return;
      }
      var ds;
      ok, ds := CreateDetectors(freq);
      if !ok {
        return;
      }
      cd := new ChannelDetector(freq, pool, radarSpec, ds);
      channels := [cd] + channels;
      AllNew(ds);
    }

    /** One detector per radar type; when an allocation fails, those already created are destroyed. */
    method CreateDetectors(freq: nat) returns (ok: bool, ds: seq<PriDetector>)
      requires forall j :: 0 <= j < |radarSpec| ==> radarSpec[j].ppb >= 1
      modifies pool
      ensures var (k, p) := InitDetectors(pool.kmalloc, old(pool.View()), |radarSpec|);
              && (ok <==> k == |radarSpec|)
              && pool.View() == if ok then p else ExitDetectors(NewDetectors(k), p)
      ensures ok ==> |ds| == |radarSpec| && Distinct(ds)
      ensures ok ==> forall j :: 0 <= j < |ds| ==> fresh(ds[j]) && IsNew(ds[j], radarSpec[j], pool)
    {
      hide InitDetectors, ExitDetectors;
      ds := [];
      InitStart(pool.kmalloc, pool.View(), |radarSpec|);
      while |ds| < |radarSpec|
        invariant |ds| <= |radarSpec| && Distinct(ds)
        invariant forall j :: 0 <= j < |ds| ==> fresh(ds[j]) && IsNew(ds[j], radarSpec[j], pool)
        invariant Initing(pool.kmalloc, old(pool.View()), |radarSpec|, |ds|, pool.View())
        decreases |radarSpec| - |ds|
      {
        InitStep(pool.kmalloc, old(pool.View()), |radarSpec|, |ds|, pool.View());
        ok := pool.Kmalloc();
        if !ok {
          var partial := new ChannelDetector(freq, pool, radarSpec[..|ds|], ds);
          AllNew(ds);
          partial.Exit();
          return;
        }
        var de := new PriDetector(radarSpec[|ds|], pool);
        ds := ds + [de];
      }
      InitEnd(pool.kmalloc, old(pool.View()), |radarSpec|, pool.View());
      ok := true;
    }

    /** Existing channel detector for the frequency, or a new one; null if none can be created. */
    method GetChannel(freq: nat) returns (cd: ChannelDetector?, ghost at: nat)
      requires Valid() && forall j :: 0 <= j < |radarSpec| ==> radarSpec[j].ppb >= 1
      modifies this`channels, pool
      ensures Valid() && fresh(Detectors() - old(Detectors()))
      ensures (if cd == null then None else Some(at), State(), pool.View()) ==
              PatternModel.GetChannel(pool.kmalloc, old(State()), old(pool.View()), freq)
      ensures cd != null ==> at < |channels| && channels[at] == cd
    {
      hide PatternModel.CreateChannel, ChannelStates, States, FindChannel, Separate;
      var i := Find(freq);
      if i < |channels| {
        return channels[i], i;
      }
      at := 0;
      label Before:
      cd := CreateChannel(freq);
      if cd != null {
        ListedFirst@Before(cd);
        ListedDetectors@Before(cd);
      } else {
        NothingTouched@Before();
      }
    }

    /** Listing a channel of new detectors keeps the others as they are. */
    twostate lemma ListedFirst(new cd: ChannelDetector)
      requires old(Valid()) && channels == [cd] + old(channels) && radarSpec == old(radarSpec)
      requires cd.Valid() && cd.specs == radarSpec && cd.pool == pool
      requires forall d | d in cd.detectors :: !old(allocated(d))
      requires forall d | d in old(Detectors()) :: unchanged(d)
      ensures Valid() && ChannelStates(channels) == [cd.State()] + old(ChannelStates(channels))
    {
      hide ChannelStates, States;
      var rest := old(channels);
      forall j | 0 <= j < |rest|
        ensures rest[j].Valid() && rest[j].State() == old(rest[j].State())
      {
        forall d | d in rest[j].detectors
          ensures d in old(Detectors())
        {
          var i :| 0 <= i < |rest[j].detectors| && rest[j].detectors[i] == d;
        }
        Untouched(rest[j]);
      }
      assert forall j :: 0 < j < |channels| ==> channels[j] == rest[j - 1];
      assert Separate(channels);
      SameStates(rest);
      StatesPush(cd, rest);
    }

    /** Listing a channel adds just its own detectors. */
    twostate lemma ListedDetectors(new cd: ChannelDetector)
      requires channels == [cd] + old(channels)
      ensures forall d | d in Detectors() :: d in old(Detectors()) || d in cd.detectors
    {
      forall d | d in Detectors()
        ensures d in old(Detectors()) || d in cd.detectors
      {
        var c, i :| 0 <= c < |channels| && 0 <= i < |channels[c].detectors| && channels[c].detectors[i] == d;
        assert c > 0 ==> channels[c] == old(channels)[c - 1];
      }
    }

    twostate lemma NothingTouched()
      requires old(Valid()) && channels == old(channels) && radarSpec == old(radarSpec)
      requires forall d | d in old(Detectors()) :: unchanged(d)
      ensures Valid() && ChannelStates(channels) == old(ChannelStates(channels)) && Detectors() == old(Detectors())
    {
      forall j | 0 <= j < |channels|
        ensures channels[j].Valid() && channels[j].State() == old(channels[j].State())
      {
        forall d | d in channels[j].detectors
          ensures d in old(Detectors())
        {
          var i :| 0 <= i < |channels[j].detectors| && channels[j].detectors[i] == d;
        }
        Untouched(channels[j]);
      }
    }

    /** Position of the channel detector for the frequency, or |channels|. */
    method Find(freq: nat) returns (i: nat)
      ensures i <= |channels| && i == FindChannel(ChannelStates(channels), freq)
    {
      hide ChannelStates, States;
      i := 0;
      while i < |channels|
        invariant i <= |channels|
        invariant forall j :: 0 <= j < i ==> channels[j].freq != freq
      {
        if channels[i].freq == freq {
          break;
        }
        i := i + 1;
      }
      FoundAt(ChannelStates(channels), freq, i);
    }

    /** Reset all channels to the last time stamp. */
    method Reset()
      requires Valid()
      modifies Detectors(), pool
      ensures Valid()
      ensures (ChannelStates(channels), pool.View()) ==
              ResetChannels(old(ChannelStates(channels)), old(pool.View()), lastPulseTs)
    {
      hide ResettingAll, ResetChannels, ResetDetectors, ChannelStates, States, Separate, Detectors;
      ghost var before, p0, ts := ChannelStates(channels), pool.View(), lastPulseTs;
      var i := 0;
      ResettingAllStart(before, p0, ts);
      while i < |channels|
        invariant channels == old(channels) && lastPulseTs == ts && Detectors() == old(Detectors())
        invariant 0 <= i <= |channels| && Valid()
        invariant ResettingAll(before, i, ChannelStates(channels), p0, pool.View(), ts)
      {
        ResettingAllStep(before, i, ChannelStates(channels), p0, pool.View(), ts);
        ResetAt(i);
        i := i + 1;
      }
      ResettingAllEnd(before, ChannelStates(channels), p0, pool.View(), ts);
    }

    /** Reset the channel at position i. */
    method ResetAt(i: nat)
      requires Valid() && i < |channels|
      modifies Detectors(), pool
      ensures Valid()
      ensures var was := old(ChannelStates(channels));
              var (dets, p) := ResetDetectors(was[i].dets, old(pool.View()), lastPulseTs);
              ChannelStates(channels) == was[i := was[i].(dets := dets)] && pool.View() == p
    {
      hide ResetDetectors, ChannelStates, States, Separate;
      ghost var was := ChannelStates(channels);
      channels[i].Reset(lastPulseTs);
      OthersUntouched(i);
      OneChannelChanged(i, was, ChannelStates(channels));
    }

    /** Process one pulse; says whether radar was detected, and of which type. */
    method AddPulse(event: PulseEvent) returns (radar: bool, found: Option<RadarSpec>)
      requires Valid() && Shaped(State())
      modifies this, Detectors(), pool
      ensures Valid() && fresh(Detectors() - old(Detectors()))
      ensures Verdict(State(), pool.View(), radar, found) ==
              PatternAddPulse(pool.kmalloc, old(State()), old(pool.View()), event)
      ensures old(region) == Unset ==>
                radar && found == None && State() == old(State()) && pool.View() == old(pool.View())
      ensures Shaped(State())
    {
      hide PatternModel.GetChannel, Shaped, ChannelStates, States, Separate, PatternModel.Match, Rewind, ValidSpecs,
           PatternAddPulse;
      ghost var pd, p := State(), pool.View();
      if region == Unset {
        NoDomain(pool.kmalloc, pd, p, event);
        return true, None;
      }
      PositivePpb(pd);
      var cd, at := GetChannel(event.freq);
      if cd == null {
        NoChannel(pool.kmalloc, pd, p, event);
        return false, None;
      }
      ghost var pd1, p1 := State(), pool.View();
      RewindTo(event.ts);
      ghost var pd2, p2 := State(), pool.View();
      OnChannel(pool.kmalloc, pd, p, event, at, pd1, p1, pd2, p2);
      var fired := MatchOn(cd, event, at);
      if fired.Some? {
        return true, Some(radarSpec[fired.value]);
      }
      return false, None;
    }

    /** Change the radar types; the channels of the previous domain are destroyed. */
    method SetDomain(to: Region) returns (ok: bool)
      requires Valid()
      modifies this, Detectors(), pool
      ensures Valid()
      ensures (State(), pool.View(), ok) == PatternModel.SetDomain(old(State()), old(pool.View()), to)
      ensures ok <==> to == old(region) || to == Etsi || to == Fcc || to == Jp
      ensures to == old(region) ==> State() == old(State()) && pool.View() == old(pool.View())
      ensures !ok ==> State() == old(State()).(region := Unset) && pool.View() == old(pool.View())
      ensures ok && to != old(region) ==>
                && region == to && channels == [] && lastPulseTs == old(lastPulseTs)
                && pool.View() == ExitChannels(old(ChannelStates(channels)), old(pool.View()))
    {
      hide ChannelStates, States, ExitChannels, RadarTypes;
      KnownRegions(to);
      if region == to {
        return true;
      }
      region := Unset;
      var rt := RadarTypes(to);
      if rt.None? {
        return false;
      }
      ExitAll();
      channels := [];
      NoChannels();
      radarSpec := rt.value;
      region := to;
      return true;
    }

    /** Run the destructors of all channels. */
    method ExitAll()
      requires Valid()
      modifies Detectors(), pool
      ensures pool.View() == ExitChannels(old(ChannelStates(channels)), old(pool.View()))
    {
      hide ChannelStates, States, ExitChannels, ExitDetectors;
      ghost var before := ChannelStates(channels);
      var i := 0;
      ExitAllStart(before, pool.View());
      while i < |channels|
        invariant 0 <= i <= |channels| && Separate(channels)
        invariant pool.View() == ExitChannels(before[..i], old(pool.View()))
        invariant forall j :: i <= j < |channels| ==>
                    channels[j].Valid() && channels[j].specs == radarSpec && channels[j].pool == pool &&
                    channels[j].State() == before[j]
      {
        ExitAllStep(before, i, old(pool.View()));
        label Before:
        channels[i].Exit();
        forall j | i < j < |channels|
          ensures channels[j].Valid() && channels[j].State() == before[j]
        {
          Untouched@Before(channels[j]);
        }
        i := i + 1;
      }
      assert before[..|channels|] == before;
    }

    /** Take over the time of a pulse; when time went back, reset all channels to the last time stamp first. */
    method RewindTo(ts: u64)
      requires Valid()
      modifies this`lastPulseTs, Detectors(), pool
      ensures Valid()
      ensures (State(), pool.View()) == Rewind(old(State()), old(pool.View()), ts)
    {
      hide ChannelStates, States, Separate, ResetChannels;
      if ts < lastPulseTs {
        Reset();
      }
      label Before:
      lastPulseTs := ts;
      SameChannels@Before();
    }

    /** Writing another field of the pattern detector leaves the channels alone. */
    twostate lemma SameChannels()
      requires old(Valid()) && channels == old(channels) && radarSpec == old(radarSpec)
      requires forall d :: d in old(Detectors()) ==> unchanged(d)
      ensures Valid() && ChannelStates(channels) == old(ChannelStates(channels))
    {
      hide ChannelStates;
      forall j | 0 <= j < |channels|
        ensures channels[j].Valid() && channels[j].State() == old(channels[j].State())
      {
        forall d | d in channels[j].detectors ensures unchanged(d) {
          assert d in old(Detectors());
        }
        Untouched(channels[j]);
      }
      SameStates(channels);
    }

    /** Match a pulse on the channel detector at position `at`. */
    method MatchOn(cd: ChannelDetector, event: PulseEvent, ghost at: nat) returns (fired: Option<nat>)
      requires Valid() && at < |channels| && channels[at] == cd
      requires forall j :: 0 <= j < |radarSpec| ==> radarSpec[j].ppb >= 1
      modifies cd.detectors, pool
      ensures Valid()
      ensures var pd := old(State());
              var dets, p := pd.channels[at].dets, old(pool.View());
              var (dets', p', f) := PatternModel.Match(pool.kmalloc, pd.specs, dets, p, event, 0);
              && pool.View() == p' && fired == f
              && State() == pd.(channels := pd.channels[at := pd.channels[at].(dets := dets')])
    {
      hide ChannelStates, States, Separate, PatternModel.Match;
      ghost var was := ChannelStates(channels);
      fired := cd.Match(event);
      OthersUntouched(at);
      OneChannelChanged(at, was, ChannelStates(channels));
    }

    /** Work on the detectors of one channel leaves the other channels alone. */
    twostate lemma OthersUntouched(i: nat)
      requires old(Valid()) && i < |channels| && channels == old(channels) && radarSpec == old(radarSpec)
      requires channels[i].Valid()
      requires forall d: PriDetector :: old(allocated(d)) && d !in channels[i].detectors ==> unchanged(d)
      ensures Valid()
      ensures forall j :: 0 <= j < |channels| && j != i ==> channels[j].State() == old(channels[j].State())
    {
      forall j | 0 <= j < |channels| && j != i
        ensures channels[j].Valid() && channels[j].State() == old(channels[j].State())
      {
        Untouched(channels[j]);
      }
    }

    ghost predicate IsNewChannel(cd: ChannelDetector, ch: Channel)
      reads this, pool, cd.detectors
    {
      cd.Valid() && cd.State() == ch && cd.specs == radarSpec && cd.pool == pool
    }
  }

  ghost predicate IsNew(d: PriDetector, rs: RadarSpec, pool: Pool)
    reads d
  {
    d.Valid() && d.rs == rs && d.pool == pool && d.State() == NEW_DETECTOR
  }

  lemma AllNew(ds: seq<PriDetector>)
    requires forall j :: 0 <= j < |ds| ==> ds[j].State() == NEW_DETECTOR
    ensures States(ds) == NewDetectors(|ds|)
  {
  }

  lemma InitStart(kmalloc: Kmalloc, p: Pools, n: nat)
    ensures Initing(kmalloc, p, n, 0, p)
  {
  }

  /** k of n detectors are created so far. */
  ghost predicate Initing(kmalloc: Kmalloc, p0: Pools, n: nat, k: nat, p: Pools) {
    k <= n && InitDetectors(kmalloc, p0, n) ==
              (k + InitDetectors(kmalloc, p, n - k).0, InitDetectors(kmalloc, p, n - k).1)
  }

  lemma InitStep(kmalloc: Kmalloc, p0: Pools, n: nat, k: nat, p: Pools)
    requires Initing(kmalloc, p0, n, k, p) && k < n
    ensures var (ok, p1) := Kmalloc1(kmalloc, p);
            if ok then Initing(kmalloc, p0, n, k + 1, Register(p1))
            else InitDetectors(kmalloc, p0, n) == (k, p1)
  {
  }

  lemma InitEnd(kmalloc: Kmalloc, p0: Pools, n: nat, p: Pools)
    requires Initing(kmalloc, p0, n, n, p)
    ensures InitDetectors(kmalloc, p0, n) == (n, p)
  {
  }

  lemma NoChannels()
    ensures ChannelStates([]) == []
  {
  }

  lemma ExitAllStart(before: seq<Channel>, p: Pools)
    ensures ExitChannels(before[..0], p) == p
  {
  }

  lemma ExitAllStep(before: seq<Channel>, i: nat, p: Pools)
    requires i < |before|
    ensures ExitChannels(before[..i + 1], p) == ExitDetectors(before[i].dets, ExitChannels(before[..i], p))
  {
    assert before[..i + 1][..i] == before[..i];
  }

  lemma NoDomain(kmalloc: Kmalloc, pd: Pattern, p: Pools, e: PulseEvent)
    requires Shaped(pd) && pd.region == Unset
    ensures PatternAddPulse(kmalloc, pd, p, e) == Verdict(pd, p, true, None)
  {
  }

  lemma NoChannel(kmalloc: Kmalloc, pd: Pattern, p: Pools, e: PulseEvent)
    requires Shaped(pd) && pd.region != Unset && PatternModel.GetChannel(kmalloc, pd, p, e.freq).0 == None
    ensures var (_, pd1, p1) := PatternModel.GetChannel(kmalloc, pd, p, e.freq);
            PatternAddPulse(kmalloc, pd, p, e) == Verdict(pd1, p1, false, None) && Shaped(pd1)
  {
    GetChannelKeepsShape(kmalloc, pd, p, e.freq);
  }

  /** What is left to do once the channel is found and rewound. */
  lemma OnChannel(kmalloc: Kmalloc, pd: Pattern, p: Pools, e: PulseEvent, at: nat, pd1: Pattern, p1: Pools,
                  pd2: Pattern, p2: Pools)
    requires Shaped(pd) && pd.region != Unset && PatternModel.GetChannel(kmalloc, pd, p, e.freq) == (Some(at), pd1, p1)
    requires Rewind(pd1, p1, e.ts) == (pd2, p2)
    ensures at < |pd2.channels| && |pd2.channels[at].dets| == |pd2.specs|
    ensures forall j :: 0 <= j < |pd2.specs| ==> pd2.specs[j].ppb >= 1
    ensures var (dets, p3, fired) := PatternModel.Match(kmalloc, pd2.specs, pd2.channels[at].dets, p2, e, 0);
            PatternAddPulse(kmalloc, pd, p, e) ==
            Verdict(pd2.(channels := pd2.channels[at := pd2.channels[at].(dets := dets)]), p3, fired.Some?,
                    if fired.Some? then Some(pd2.specs[fired.value]) else None)
  {
    GetChannelKeepsShape(kmalloc, pd, p, e.freq);
    RewindKeepsShape(pd1, p1, e.ts);
    hide PatternModel.GetChannel, Rewind, PatternModel.Match;
  }

  lemma PositivePpb(pd: Pattern)
    requires Shaped(pd)
    ensures forall j :: 0 <= j < |pd.specs| ==> pd.specs[j].ppb >= 1
  {
  }

  lemma FoundAt(channels: seq<Channel>, freq: nat, i: nat)
    requires i <= |channels| && (i < |channels| ==> channels[i].freq == freq)
    requires forall j :: 0 <= j < i ==> channels[j].freq != freq
    ensures FindChannel(channels, freq) == i
  {
  }

  /** The first i of these channels are reset. */
  ghost predicate ResettingAll(before: seq<Channel>, i: nat, now: seq<Channel>, p0: Pools, p: Pools, ts: u64) {
    && i <= |before| == |now|
    && ResetChannels(before[..i], p0, ts) == (now[..i], p)
    && now[i..] == before[i..]
  }

  lemma ResettingAllStart(before: seq<Channel>, p: Pools, ts: u64)
    ensures ResettingAll(before, 0, before, p, p, ts)
  {
  }

  lemma ResettingAllStep(before: seq<Channel>, i: nat, now: seq<Channel>, p0: Pools, p: Pools, ts: u64)
    requires ResettingAll(before, i, now, p0, p, ts) && i < |before|
    ensures |now| == |before|
    ensures var (dets, p') := ResetDetectors(now[i].dets, p, ts);
            ResettingAll(before, i + 1, now[i := now[i].(dets := dets)], p0, p', ts)
  {
    assert now[i] == now[i..][0] == before[i..][0] == before[i];
    assert before[..i + 1][..i] == before[..i];
    var (dets, p') := ResetDetectors(now[i].dets, p, ts);
    var now' := now[i := now[i].(dets := dets)];
    assert ResetChannels(before[..i + 1], p0, ts) == (now[..i] + [now[i].(dets := dets)], p');
    assert now'[..i + 1] == now[..i] + [now[i].(dets := dets)];
    assert now'[i + 1..] == now[i..][1..] == before[i..][1..] == before[i + 1..];
  }

  lemma ResettingAllEnd(before: seq<Channel>, now: seq<Channel>, p0: Pools, p: Pools, ts: u64)
    requires ResettingAll(before, |before|, now, p0, p, ts)
    ensures (now, p) == ResetChannels(before, p0, ts)
  {
    assert before[..|before|] == before && now[..|before|] == now;
  }

  lemma OneChannelChanged(i: nat, was: seq<Channel>, now: seq<Channel>)
    requires i < |was| == |now|
    requires forall j :: 0 <= j < |was| && j != i ==> now[j] == was[j]
    ensures now == was[i := now[i]]
  {
  }
}
