/** The object pools shared by all detectors. */
module DfsPools {
  import opened DfsModel

  class Pool {
    const kmalloc: Kmalloc
    var calls: nat
    var references: int
    var poolReference: int
    var pulse: Counters
    var pseq: Counters

    ghost function View(): Pools
      reads this
    {
      Pools(references, poolReference, pulse, pseq, calls)
    }

    constructor (kmalloc: Kmalloc)
      ensures View() == Pools(0, 0, Counters(0, 0, 0, 0), Counters(0, 0, 0, 0), 0)
      ensures this.kmalloc == kmalloc
    {
      this.kmalloc := kmalloc;
      calls, references, poolReference := 0, 0, 0;
      pulse, pseq := Counters(0, 0, 0, 0), Counters(0, 0, 0, 0);
    }

    method Kmalloc() returns (ok: bool)
      modifies this`calls
      ensures ok == kmalloc(old(calls)) && calls == old(calls) + 1
    {
      ok := kmalloc(calls);
      calls := calls + 1;
    }

    method RegisterRef()
      modifies this
      ensures View() == Register(old(View()))
    {
      references := references + 1;
      poolReference := poolReference + 1;
    }

    method DeregisterRef()
      modifies this
      ensures View() == Deregister(old(View()))
    {
      references := references - 1;
      poolReference := poolReference - 1;
      if references == 0 {
        while pulse.free > 0
          invariant FreeAll(pulse) == FreeAll(old(pulse))
          invariant pseq == old(pseq) && calls == old(calls)
          invariant references == old(references) - 1 && poolReference == old(poolReference) - 1
        {
          pulse := pulse.(free := pulse.free - 1, allocs := pulse.allocs - 1);
        }
        while pseq.free > 0
          invariant FreeAll(pseq) == FreeAll(old(pseq))
          invariant pulse == FreeAll(old(pulse)) && calls == old(calls)
          invariant references == old(references) - 1 && poolReference == old(poolReference) - 1
        {
          pseq := pseq.(free := pseq.free - 1, allocs := pseq.allocs - 1);
        }
      }
    }

    method PutPulseElem()
      modifies this`pulse
      ensures pulse == Give(old(pulse), 1)
    {
      pulse := pulse.(free := pulse.free + 1);
      pulse := pulse.(used := pulse.used - 1);
    }

    method PutPseqElem()
      modifies this`pseq
      ensures pseq == Give(old(pseq), 1)
    {
      pseq := pseq.(free := pseq.free + 1);
      pseq := pseq.(used := pseq.used - 1);
    }

    /** Take an element from the free list, if there is one. */
    method GetPulseElem() returns (found: bool)
      modifies this`pulse
      ensures found <==> old(pulse).free > 0
      ensures pulse == if found then old(pulse).(free := old(pulse).free - 1, used := old(pulse).used + 1)
                       else old(pulse)
    {
      found := pulse.free > 0;
      if found {
        pulse := pulse.(free := pulse.free - 1);
        pulse := pulse.(used := pulse.used + 1);
      }
    }

    method GetPseqElem() returns (found: bool)
      modifies this`pseq
      ensures found <==> old(pseq).free > 0
      ensures pseq == if found then old(pseq).(free := old(pseq).free - 1, used := old(pseq).used + 1) else old(pseq)
    {
      found := pseq.free > 0;
      if found {
        pseq := pseq.(free := pseq.free - 1);
        pseq := pseq.(used := pseq.used + 1);
      }
    }
  }
}
