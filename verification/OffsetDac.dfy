/** The search for offset DAC settings that bring the DC offsets of three radio chains into range. */
module OffsetDacs {
  const UPPER_LIMIT := 24
  const LOWER_LIMIT := 7
  const DAC_MAX := 3

  /** I and Q offsets of a chain at high gain, low gain and in loopback. */
  datatype Offsets = Offsets(i1: nat, q1: nat, i2: nat, q2: nat, i3: nat, q3: nat)

  /** What the hardware answers in one round: whether the calibration finishes in time, and the offsets read. */
  datatype Reading = Reading(finished: bool, ch0: Offsets, ch1: Offsets, ch2: Offsets)

  predicate Outside(x: nat) { x > UPPER_LIMIT || x < LOWER_LIMIT }

  predicate OutOfRange(o: Offsets) {
    Outside(o.i1) || Outside(o.i2) || Outside(o.i3) || Outside(o.q1) || Outside(o.q2) || Outside(o.q3)
  }

  /** A chain is done in a round if its offsets are in range or its DAC cannot be raised. */
  predicate Done(dac: nat, o: Offsets) { !OutOfRange(o) || dac == DAC_MAX }

  datatype Chain = Ch0 | Ch1 | Ch2

  function Of(r: Reading, chain: Chain): Offsets {
    match chain
    case Ch0 => r.ch0
    case Ch1 => r.ch1
    case Ch2 => r.ch2
  }

  /** The setting after n rounds that all finished: raised once for each round out of range, up to the maximum. */
  function DacAfter(dac: nat, hw: nat -> Reading, chain: Chain, n: nat): (d: nat)
    requires dac <= DAC_MAX
    ensures dac <= d <= DAC_MAX && d <= dac + n
  {
    if n == 0 then dac
    else
      var d := DacAfter(dac, hw, chain, n - 1);
      if Done(d, Of(hw(n - 1), chain)) then d else d + 1
  }

  /** From one round to the next a setting below the maximum is raised by one exactly if one of the six offsets lies
      outside of 7 to 24; else it stays. */
  lemma RaisedExactly(dac: nat, hw: nat -> Reading, chain: Chain, n: nat)
    requires dac <= 3
    ensures var d, o := DacAfter(dac, hw, chain, n), Of(hw(n), chain);
            DacAfter(dac, hw, chain, n + 1) ==
            if d < 3 && (o.i1 < 7 || o.q1 < 7 || o.i2 < 7 || o.q2 < 7 || o.i3 < 7 || o.q3 < 7 || o.i1 > 24 || o.q1 > 24
                         || o.i2 > 24 || o.q2 > 24 || o.i3 > 24 || o.q3 > 24)
            then d + 1 else d
  {
  }

  /** A round is the last one exactly if every chain is at the maximum or has all offsets from 7 to 24. */
  lemma RoundDoneExactly(d0: nat, d1: nat, d2: nat, hw: nat -> Reading, n: nat)
    requires d0 <= 3 && d1 <= 3 && d2 <= 3
    ensures RoundDone(d0, d1, d2, hw, n) <==>
            && (var d, o := DacAfter(d0, hw, Ch0, n), hw(n).ch0;
                d == 3 || (7 <= o.i1 <= 24 && 7 <= o.q1 <= 24 && 7 <= o.i2 <= 24 && 7 <= o.q2 <= 24
                           && 7 <= o.i3 <= 24 && 7 <= o.q3 <= 24))
            && (var d, o := DacAfter(d1, hw, Ch1, n), hw(n).ch1;
                d == 3 || (7 <= o.i1 <= 24 && 7 <= o.q1 <= 24 && 7 <= o.i2 <= 24 && 7 <= o.q2 <= 24
                           && 7 <= o.i3 <= 24 && 7 <= o.q3 <= 24))
            && (var d, o := DacAfter(d2, hw, Ch2, n), hw(n).ch2;
                d == 3 || (7 <= o.i1 <= 24 && 7 <= o.q1 <= 24 && 7 <= o.i2 <= 24 && 7 <= o.q2 <= 24
                           && 7 <= o.i3 <= 24 && 7 <= o.q3 <= 24))
  {
    hide DacAfter;
  }

  predicate ChainDone(dac: nat, hw: nat -> Reading, chain: Chain, n: nat)
    requires dac <= DAC_MAX
  {
    Done(DacAfter(dac, hw, chain, n), Of(hw(n), chain))
  }

  /** All three chains are done in round n. */
  predicate RoundDone(d0: nat, d1: nat, d2: nat, hw: nat -> Reading, n: nat)
    requires d0 <= DAC_MAX && d1 <= DAC_MAX && d2 <= DAC_MAX
  {
    ChainDone(d0, hw, Ch0, n) && ChainDone(d1, hw, Ch1, n) && ChainDone(d2, hw, Ch2, n)
  }

  /** The bound of ten rounds is reached: all settings start at zero and one chain at a time is out of range. */
  lemma TenRounds(hw: nat -> Reading)
    requires Burst(hw, Ch0, 0) && Burst(hw, Ch1, 3) && Burst(hw, Ch2, 6)
    ensures forall k :: 0 <= k < 9 ==> !RoundDone(0, 0, 0, hw, k)
    ensures RoundDone(0, 0, 0, hw, 9)
    ensures ChainDone(0, hw, Ch1, 2) && !ChainDone(0, hw, Ch1, 3)
  {
    forall k | 0 <= k < 9 ensures !RoundDone(0, 0, 0, hw, k) {
      Plateau(hw, Ch0, 0, k);
      Plateau(hw, Ch1, 3, k);
      Plateau(hw, Ch2, 6, k);
    }
    Plateau(hw, Ch0, 0, 9);
    Plateau(hw, Ch1, 3, 9);
    Plateau(hw, Ch2, 6, 9);
    Plateau(hw, Ch1, 3, 2);
    Plateau(hw, Ch1, 3, 3);
  }

  function FarOff(): Offsets { Offsets(0, 0, 0, 0, 0, 0) }

  function Centred(): Offsets { Offsets(16, 16, 16, 16, 16, 16) }

  /** Out of range in three rounds. */
  ghost predicate Burst(hw: nat -> Reading, chain: Chain, from: nat) {
    forall k: nat :: Of(hw(k), chain) == if from <= k < from + 3 then FarOff() else Centred()
  }

  lemma {:induction false} Plateau(hw: nat -> Reading, chain: Chain, from: nat, n: nat)
    requires Burst(hw, chain, from)
    ensures DacAfter(0, hw, chain, n) == if n <= from then 0 else if n <= from + 3 then n - from else 3
    ensures ChainDone(0, hw, chain, n) <==> !(from <= n < from + 3)
  {
    if n > 0 {
      Plateau(hw, chain, from, n - 1);
    }
  }

  /** A chain after n rounds that all finished: its setting, and whether it was done in the last one. */
  ghost predicate ChainAt(dac: nat, hw: nat -> Reading, chain: Chain, n: nat, now: nat, done: bool) {
    && dac <= DAC_MAX && now == DacAfter(dac, hw, chain, n)
    && done == (n > 0 && ChainDone(dac, hw, chain, n - 1))
  }

  lemma ChainStep(dac: nat, hw: nat -> Reading, chain: Chain, n: nat, now: nat, done: bool)
    requires ChainAt(dac, hw, chain, n, now, done)
    ensures var done' := Done(now, Of(hw(n), chain));
            done' == ChainDone(dac, hw, chain, n) &&
            ChainAt(dac, hw, chain, n + 1, now + (if done' then 0 else 1), done')
  {
  }

  lemma ChainBefore(dac: nat, hw: nat -> Reading, chain: Chain, n: nat, now: nat, done: bool)
    requires ChainAt(dac, hw, chain, n, now, done)
    ensures now <= DAC_MAX && now == DacAfter(dac, hw, chain, n)
    ensures done ==> n > 0 && now == DacAfter(dac, hw, chain, n - 1)
  {
  }

  /** The rounds so far all finished, and in all but the last one some chain was not done. */
  ghost predicate StillOpen(d0: nat, d1: nat, d2: nat, hw: nat -> Reading, n: nat)
    requires d0 <= DAC_MAX && d1 <= DAC_MAX && d2 <= DAC_MAX
  {
    && (forall k :: 0 <= k < n - 1 ==> hw(k).finished && !RoundDone(d0, d1, d2, hw, k))
    && (n > 0 ==> hw(n - 1).finished)
  }

  lemma OpenStep(d0: nat, d1: nat, d2: nat, hw: nat -> Reading, n: nat)
    requires d0 <= DAC_MAX && d1 <= DAC_MAX && d2 <= DAC_MAX
    requires StillOpen(d0, d1, d2, hw, n) && hw(n).finished && (n > 0 ==> !RoundDone(d0, d1, d2, hw, n - 1))
    ensures StillOpen(d0, d1, d2, hw, n + 1)
  {
    hide RoundDone;
  }

  lemma RoundOver(d0: nat, d1: nat, d2: nat, hw: nat -> Reading, n: nat)
    requires d0 <= DAC_MAX && d1 <= DAC_MAX && d2 <= DAC_MAX
    ensures RoundDone(d0, d1, d2, hw, n) <==>
            ChainDone(d0, hw, Ch0, n) && ChainDone(d1, hw, Ch1, n) && ChainDone(d2, hw, Ch2, n)
  {
  }

  lemma Start(dac: nat, hw: nat -> Reading, chain: Chain)
    requires dac <= DAC_MAX
    ensures ChainAt(dac, hw, chain, 0, dac, false)
  {
  }

  lemma NothingOpen(d0: nat, d1: nat, d2: nat, hw: nat -> Reading)
    requires d0 <= DAC_MAX && d1 <= DAC_MAX && d2 <= DAC_MAX
    ensures StillOpen(d0, d1, d2, hw, 0)
  {
  }

  /** What the state of the search says about its settings and rounds. */
  lemma Settings(d0: nat, d1: nat, d2: nat, hw: nat -> Reading, n: nat, now0: nat, now1: nat, now2: nat,
                 done0: bool, done1: bool, done2: bool)
    requires ChainAt(d0, hw, Ch0, n, now0, done0) && ChainAt(d1, hw, Ch1, n, now1, done1)
    requires ChainAt(d2, hw, Ch2, n, now2, done2) && StillOpen(d0, d1, d2, hw, n)
    ensures now0 <= DAC_MAX && now1 <= DAC_MAX && now2 <= DAC_MAX
    ensures now0 == DacAfter(d0, hw, Ch0, n) && now1 == DacAfter(d1, hw, Ch1, n) && now2 == DacAfter(d2, hw, Ch2, n)
    ensures done0 && done1 && done2 ==>
              && n > 0 && now0 == DacAfter(d0, hw, Ch0, n - 1)
              && now1 == DacAfter(d1, hw, Ch1, n - 1) && now2 == DacAfter(d2, hw, Ch2, n - 1)
    ensures forall k :: 0 <= k < n - 1 ==> hw(k).finished && !RoundDone(d0, d1, d2, hw, k)
    ensures n > 0 ==> hw(n - 1).finished
  {
    ChainBefore(d0, hw, Ch0, n, now0, done0);
    ChainBefore(d1, hw, Ch1, n, now1, done1);
    ChainBefore(d2, hw, Ch2, n, now2, done2);
    hide DacAfter, ChainAt, RoundDone;
  }

  class Radio {
    var osdac0: nat
    var osdac1: nat
    var osdac2: nat

    ghost predicate Valid()
      reads this
    {
      osdac0 <= DAC_MAX && osdac1 <= DAC_MAX && osdac2 <= DAC_MAX
    }

    constructor (osdac0: nat, osdac1: nat, osdac2: nat)
      requires osdac0 <= DAC_MAX && osdac1 <= DAC_MAX && osdac2 <= DAC_MAX
      ensures Valid() && this.osdac0 == osdac0 && this.osdac1 == osdac1 && this.osdac2 == osdac2
    {
      this.osdac0, this.osdac1, this.osdac2 := osdac0, osdac1, osdac2;
    }

    /** Run calibration rounds until all chains are done in the same round; give up when a round does not finish.
        Whatever the hardware answers, `rounds` rounds are enough. */
    method DynamicOsdacSelection(hw: nat -> Reading) returns (ok: bool, rounds: nat)
      requires Valid()
      modifies this
      ensures Valid()
      ensures 1 <= rounds <= 10 - old(osdac0 + osdac1 + osdac2)
      ensures forall k :: 0 <= k < rounds - 1 ==>
                hw(k).finished && !RoundDone(old(osdac0), old(osdac1), old(osdac2), hw, k)
      ensures ok == hw(rounds - 1).finished
      ensures ok ==> RoundDone(old(osdac0), old(osdac1), old(osdac2), hw, rounds - 1)
      ensures ok ==>
                osdac0 == 3
                || (var o := hw(rounds - 1).ch0;
                    && 7 <= o.i1 <= 24 && 7 <= o.q1 <= 24 && 7 <= o.i2 <= 24 && 7 <= o.q2 <= 24
                    && 7 <= o.i3 <= 24 && 7 <= o.q3 <= 24)
      ensures ok ==>
                osdac1 == 3
                || (var o := hw(rounds - 1).ch1;
                    && 7 <= o.i1 <= 24 && 7 <= o.q1 <= 24 && 7 <= o.i2 <= 24 && 7 <= o.q2 <= 24
                    && 7 <= o.i3 <= 24 && 7 <= o.q3 <= 24)
      ensures ok ==>
                osdac2 == 3
                || (var o := hw(rounds - 1).ch2;
                    && 7 <= o.i1 <= 24 && 7 <= o.q1 <= 24 && 7 <= o.i2 <= 24 && 7 <= o.q2 <= 24
                    && 7 <= o.i3 <= 24 && 7 <= o.q3 <= 24)
      ensures osdac0 == DacAfter(old(osdac0), hw, Ch0, rounds - 1)
      ensures osdac1 == DacAfter(old(osdac1), hw, Ch1, rounds - 1)
      ensures osdac2 == DacAfter(old(osdac2), hw, Ch2, rounds - 1)
    {
      hide ChainAt, StillOpen, DacAfter, Done, ChainDone, RoundDone;
      ghost var d0, d1, d2 := osdac0, osdac1, osdac2;
      Start(d0, hw, Ch0);
      Start(d1, hw, Ch1);
      Start(d2, hw, Ch2);
      NothingOpen(d0, d1, d2, hw);
      var ch0Done, ch1Done, ch2Done := false, false, false;
      rounds := 0;
      while !ch0Done || !ch1Done || !ch2Done
        invariant ChainAt(d0, hw, Ch0, rounds, osdac0, ch0Done) && ChainAt(d1, hw, Ch1, rounds, osdac1, ch1Done)
        invariant ChainAt(d2, hw, Ch2, rounds, osdac2, ch2Done) && StillOpen(d0, d1, d2, hw, rounds)
        invariant rounds > 0 ==> (RoundDone(d0, d1, d2, hw, rounds - 1) <==> ch0Done && ch1Done && ch2Done)
        invariant rounds + d0 + d1 + d2 <=
                  osdac0 + osdac1 + osdac2 + (if ch0Done && ch1Done && ch2Done then 1 else 0)
        decreases 10 - rounds
      {
        var reading := hw(rounds);
        ChainStep(d0, hw, Ch0, rounds, osdac0, ch0Done);
        ChainStep(d1, hw, Ch1, rounds, osdac1, ch1Done);
        ChainStep(d2, hw, Ch2, rounds, osdac2, ch2Done);
        Settings(d0, d1, d2, hw, rounds, osdac0, osdac1, osdac2, ch0Done, ch1Done, ch2Done);
        rounds := rounds + 1;
        if !reading.finished {
          return false, rounds;
        }
        OpenStep(d0, d1, d2, hw, rounds - 1);
        RoundOver(d0, d1, d2, hw, rounds - 1);
        ch0Done := Done(osdac0, reading.ch0);
        if !ch0Done {
          osdac0 := osdac0 + 1;
        }
        ch1Done := Done(osdac1, reading.ch1);
        if !ch1Done {
          osdac1 := osdac1 + 1;
        }
        ch2Done := Done(osdac2, reading.ch2);
        if !ch2Done {
          osdac2 := osdac2 + 1;
        }
      }
      Settings(d0, d1, d2, hw, rounds, osdac0, osdac1, osdac2, ch0Done, ch1Done, ch2Done);
      RoundDoneExactly(d0, d1, d2, hw, rounds - 1);
      return true, rounds;
    }
  }
}
