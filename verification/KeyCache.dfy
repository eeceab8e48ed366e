/** The key cache as the driver keeps it: three bitmaps updated in place. */
module KeyCaches {
  import opened KeyCacheModel

  /** A free slot of the first partly used group, with only used slots of the group below it, is the best fit. */
  lemma PickedFromPartial(keymap: set<nat>, combined: bool, i: nat, slot: nat)
    requires WEP_NKID <= i < Stride(combined) && slot in Group(combined, i) && slot !in keymap
    requires exists u :: u in Group(combined, i) && u in keymap
    requires forall u :: u in Group(combined, i) && u < slot ==> u in keymap
    requires forall j :: 0 <= j < i ==> !Partial(keymap, combined, j)
    ensures BestFit(keymap, combined, slot)
  {
    hide Home, Group;
    GroupMembers(combined, i, slot);
    var u :| u in Group(combined, i) && u in keymap;
    assert u in Group(combined, i) * keymap;
    forall s | 0 <= s < slot && Available(keymap, combined, s) ensures Home(combined, s) != i {
      GroupMembers(combined, i, s);
    }
  }

  /** If no group is partly used, the first free slot is the best fit. */
  lemma PickedFromFree(keymap: set<nat>, combined: bool, slot: nat)
    requires Available(keymap, combined, slot)
    requires forall j :: 0 <= j < Stride(combined) ==> !Partial(keymap, combined, j)
    requires forall s :: 0 <= s < slot ==> !Available(keymap, combined, s)
    ensures BestFit(keymap, combined, slot)
  {
  }

  lemma NotPartial(keymap: set<nat>, combined: bool, i: nat)
    requires Group(combined, i) !! keymap || Group(combined, i) <= keymap
    ensures !Partial(keymap, combined, i)
  {
  }

  class KeyCache {
    const combined: bool
    const aesCcm: bool
    var keymap: set<nat>
    var tkipKeymap: set<nat>
    var ccmpKeymap: set<nat>
    ghost var live: map<nat, Cipher>

    constructor (combined: bool, aesCcm: bool)
      ensures this.combined == combined && this.aesCcm == aesCcm
      ensures Snapshot() == Run(combined, [])
    {
      this.combined, this.aesCcm := combined, aesCcm;
      keymap, tkipKeymap, ccmpKeymap, live := {}, {}, {}, map[];
    }

    ghost function Snapshot(): State
      reads this
    {
      State(Keys(keymap, tkipKeymap, ccmpKeymap), live)
    }

    /** Look for a wholly free group. For a key cache that does not combine the MIC keys the scan goes on past the
        groups, to slots whose fourth part lies behind the bitmap; `beyond` holds what is read there. */
    method ReserveTkip(beyond: set<nat>) returns (idx: int)
      ensures -1 <= idx < 64
      ensures if 0 <= idx < Stride(combined) then FirstPlace(keymap, combined, idx)
              else Places(keymap, combined) == {}
    {
      var i := WEP_NKID;
      while i < KEYMAX / 2
        invariant WEP_NKID <= i <= 64
        invariant forall j :: 0 <= j < i ==> !Place(keymap, combined, j)
      {
        var taken := i in keymap || i + 64 in keymap;
        if !taken && !combined {
          taken := i + 32 in keymap || (if i + 96 < KEYMAX then i + 96 in keymap else i + 96 in beyond);
        }
        if !taken {
          return i;
        }
        i := i + 1;
      }
      return -1;
    }

    /** Look for a slot of a partly used group. */
    method ReservePartial() returns (idx: int)
      ensures -1 <= idx < KEYMAX
      ensures if idx >= 0 then BestFit(keymap, combined, idx)
              else forall j :: 0 <= j < Stride(combined) ==> !Partial(keymap, combined, j)
    {
      hide BestFit, Partial;
      var i := WEP_NKID;
      assert forall j :: 0 <= j < i ==> !Partial(keymap, combined, j) by { TooLow(); }
      if !combined {
        while i < KEYMAX / 4
          invariant WEP_NKID <= i <= 32
          invariant forall j :: 0 <= j < i ==> !Partial(keymap, combined, j)
        {
          if i !in keymap && (i + 32 in keymap || i + 64 in keymap || i + 96 in keymap) {
            PickedFromPartial(keymap, combined, i, i);
            return i;
          }
          if i + 32 !in keymap && (i in keymap || i + 64 in keymap || i + 96 in keymap) {
            PickedFromPartial(keymap, combined, i, i + 32);
            return i + 32;
          }
          if i + 64 !in keymap && (i in keymap || i + 32 in keymap || i + 96 in keymap) {
            PickedFromPartial(keymap, combined, i, i + 64);
            return i + 64;
          }
          if i + 96 !in keymap && (i in keymap || i + 32 in keymap || i + 64 in keymap) {
            PickedFromPartial(keymap, combined, i, i + 96);
            return i + 96;
          }
          NotPartial(keymap, combined, i);
          i := i + 1;
        }
      } else {
        while i < KEYMAX / 2
          invariant WEP_NKID <= i <= 64
          invariant forall j :: 0 <= j < i ==> !Partial(keymap, combined, j)
        {
          if i !in keymap && i + 64 in keymap {
            PickedFromPartial(keymap, combined, i, i);
            return i;
          }
          if i in keymap && i + 64 !in keymap {
            PickedFromPartial(keymap, combined, i, i + 64);
            return i + 64;
          }
          NotPartial(keymap, combined, i);
          i := i + 1;
        }
      }
      return -1;
    }

    lemma TooLow()
      ensures forall j :: 0 <= j < WEP_NKID ==> !Partial(keymap, combined, j)
    {
    }

    /** Pick a slot for another cipher. */
    method ReserveOther() returns (idx: int)
      ensures -1 <= idx < KEYMAX
      ensures if idx >= 0 then BestFit(keymap, combined, idx)
              else forall s :: 0 <= s ==> !Available(keymap, combined, s)
    {
      hide BestFit, Partial;
      idx := ReservePartial();
      if idx >= 0 {
        return;
      }
      var i := WEP_NKID;
      while i < KEYMAX
        invariant WEP_NKID <= i <= KEYMAX
        invariant forall s :: 0 <= s < i ==> !Available(keymap, combined, s)
      {
        var reserved := 64 <= i < 64 + WEP_NKID;
        if !combined {
          reserved := reserved || 32 <= i < 32 + WEP_NKID || 96 <= i < 96 + WEP_NKID;
        }
        if !reserved && i !in keymap {
          PickedFromFree(keymap, combined, i);
          return i;
        }
        i := i + 1;
      }
      return -1;
    }

    method Reserve(cipher: Cipher, beyond: set<nat>) returns (idx: int)
      ensures -1 <= idx < KEYMAX
      ensures cipher.Tkip? ==>
                if 0 <= idx < Stride(combined) then FirstPlace(keymap, combined, idx)
                else idx < 64 && Places(keymap, combined) == {}
      ensures !cipher.Tkip? ==>
                if idx >= 0 then BestFit(keymap, combined, idx)
                else forall s :: 0 <= s ==> !Available(keymap, combined, s)
    {
      if cipher.Tkip? {
        idx := ReserveTkip(beyond);
      } else {
        idx := ReserveOther();
      }
    }

    /** Is there room for the key? */
    ghost predicate Room(q: Request)
      reads this
    {
      if q.cipher.Tkip? then Places(keymap, combined) != {}
      else exists s :: 0 <= s < KEYMAX && Available(keymap, combined, s)
    }

    /** Store a key. */
    method Config(q: Request, beyond: set<nat>) returns (reply: Reply)
      requires q.keyIdx < WEP_NKID
      modifies this`keymap, this`tkipKeymap, this`ccmpKeymap, this`live
      ensures reply.Slot? ==> Possible(old(Snapshot()), combined, Stored(q.cipher, reply.idx))
                              && Snapshot() == After(old(Snapshot()), combined, Stored(q.cipher, reply.idx))
      ensures !reply.Slot? ==> Snapshot() == old(Snapshot())
      // Default keys name their slot; others get one of the cache.
      ensures reply.Slot? && !q.pairwise && (q.interface.OtherInterface? || (q.interface.AdHoc? && !q.hasStation)) ==>
                reply.idx == q.keyIdx
      ensures reply.Slot? && !q.pairwise && (q.interface.AccessPoint? || (q.interface.AdHoc? && q.hasStation)) ==>
                reply.idx >= WEP_NKID
      ensures reply.Slot? && q.pairwise ==> if q.keyIdx > 0 then reply.idx == q.keyIdx else reply.idx >= WEP_NKID
      // Who is refused, and why.
      ensures reply == NotSupported <==> q.cipher.Unsupported? || (q.pairwise && !q.hasStation)
      ensures reply != NotSupported && q.pairwise && q.keyIdx > 0 && q.interface.AccessPoint? ==> reply == IoError
      ensures reply != NotSupported && !(q.pairwise && q.keyIdx > 0 && q.interface.AccessPoint?) ==>
                (reply.Slot? <==>
                  && (q.cipher.Ccmp? ==> aesCcm) && (q.cipher.Wep? ==> q.keyLen >= 5)
                  && (WantsSlot(q) ==> old(Room(q))))
      ensures reply.NoSpace? ==> WantsSlot(q) && !old(Room(q))
    {
      hide BestFit, FirstPlace, Available, Mark;
      if q.cipher.Unsupported? {
        return NotSupported;
      }
      var idx: int;
      if !q.pairwise {
        match q.interface
        case AccessPoint => idx := Reserve(q.cipher, beyond);
        case AdHoc =>
          if !q.hasStation {
            idx := q.keyIdx;
          } else {
            idx := Reserve(q.cipher, beyond);
          }
        case OtherInterface => idx := q.keyIdx;
      } else if q.keyIdx != 0 {
        if !q.hasStation {
          return NotSupported;
        }
        if !q.interface.AccessPoint? {
          idx := q.keyIdx;
        } else {
          return IoError;
        }
      } else {
        if !q.hasStation {
          return NotSupported;
        }
        idx := Reserve(q.cipher, beyond);
      }
      ghost var room := Room(q);
      RoomWhenReserved(q, idx);
      if idx < 0 {
        return NoSpace;
      }
      if !KeyAccepted(combined, aesCcm, q, idx) {
        return IoError;
      }
      reply := Slot(idx);
      SetBits(idx, q.cipher);
    }

    lemma RoomWhenReserved(q: Request, idx: int)
      requires -1 <= idx < KEYMAX
      ensures q.cipher.Tkip? ==>
                (0 <= idx < Stride(combined) && FirstPlace(keymap, combined, idx) ==> WEP_NKID <= idx && Room(q))
      ensures !q.cipher.Tkip? ==>
                (idx >= 0 && BestFit(keymap, combined, idx) ==> WEP_NKID <= idx && Room(q))
    {
      if q.cipher.Tkip? && 0 <= idx < Stride(combined) && FirstPlace(keymap, combined, idx) {
        assert idx in Places(keymap, combined);
      }
    }

    method SetBits(idx: nat, cipher: Cipher)
      modifies this`keymap, this`tkipKeymap, this`ccmpKeymap, this`live
      ensures Snapshot() == After(old(Snapshot()), combined, Stored(cipher, idx))
    {
      keymap := keymap + {idx};
      if cipher.Ccmp? {
        ccmpKeymap := ccmpKeymap + {idx};
      }
      if cipher.Tkip? {
        SetTkipBits(idx);
      }
      live := if idx < WEP_NKID then live else live[idx := cipher];
    }

    method SetTkipBits(idx: nat)
      requires idx in keymap
      modifies this`keymap, this`tkipKeymap
      ensures keymap == old(keymap) + Group(combined, idx) && tkipKeymap == old(tkipKeymap) + Group(combined, idx)
    {
      keymap := keymap + {idx + 64};
      tkipKeymap := tkipKeymap + {idx};
      tkipKeymap := tkipKeymap + {idx + 64};
      if !combined {
        keymap := keymap + {idx + 32};
        keymap := keymap + {idx + 96};
        tkipKeymap := tkipKeymap + {idx + 32};
        tkipKeymap := tkipKeymap + {idx + 96};
      }
    }

    /** Delete a key. The slots behind the bitmap that the index of another slot of a TKIP key would reach are not
        modelled. */
    method Delete(idx: nat)
      requires idx < KEYMAX
      modifies this`keymap, this`tkipKeymap, this`ccmpKeymap, this`live
      ensures Possible(old(Snapshot()), combined, Deleted(idx)) <==> idx < WEP_NKID || idx in old(live)
      ensures Snapshot() == After(old(Snapshot()), combined, Deleted(idx))
    {
      if idx < WEP_NKID {
        assert live - {} == live;
        return;
      }
      live := live - {idx};
      keymap := keymap - {idx};
      ccmpKeymap := ccmpKeymap - {idx};
      if idx !in tkipKeymap {
        return;
      }
      keymap := keymap - {idx + 64};
      tkipKeymap := tkipKeymap - {idx};
      tkipKeymap := tkipKeymap - {idx + 64};
      if !combined {
        keymap := keymap - {idx + 32};
        keymap := keymap - {idx + 96};
        tkipKeymap := tkipKeymap - {idx + 32};
        tkipKeymap := tkipKeymap - {idx + 96};
      }
    }
  }
}
