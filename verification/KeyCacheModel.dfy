/** The hardware key cache: which slots hold keys, and which requests get which slot. */
module KeyCacheModel {
  /** Slots of the key cache, and slots that default keys are stored in directly. */
  const KEYMAX := 128
  const WEP_NKID := 4

  datatype Cipher = Clear | Wep | Tkip | Ccmp | Unsupported

  /** The three bitmaps. */
  datatype Keys = Keys(keymap: set<nat>, tkip: set<nat>, ccmp: set<nat>)

  /** A TKIP key takes all slots of one group: two slots if the hardware combines the MIC keys, four if not. */
  function Stride(combined: bool): nat { if combined then 64 else 32 }

  function Home(combined: bool, slot: nat): nat { if combined then slot % 64 else slot % 32 }

  function Group(combined: bool, i: nat): set<nat> {
    if combined then {i, i + 64} else {i, i + 32, i + 64, i + 96}
  }

  /** Slots outside of the groups that default keys may need. */
  predicate Usable(combined: bool, slot: nat) { slot < KEYMAX && Home(combined, slot) >= WEP_NKID }

  predicate Place(keymap: set<nat>, combined: bool, i: nat) {
    WEP_NKID <= i < Stride(combined) && Group(combined, i) !! keymap
  }

  predicate Partial(keymap: set<nat>, combined: bool, i: nat) {
    WEP_NKID <= i < Stride(combined) && Group(combined, i) * keymap != {} && !(Group(combined, i) <= keymap)
  }

  predicate Available(keymap: set<nat>, combined: bool, slot: nat) { Usable(combined, slot) && slot !in keymap }

  /** The first wholly free group. */
  ghost predicate FirstPlace(keymap: set<nat>, combined: bool, i: nat) {
    Place(keymap, combined, i) && forall j :: 0 <= j < i ==> !Place(keymap, combined, j)
  }

  /** The first free slot of the first partly used group; if there is no such group, the first free slot. */
  ghost predicate BestFit(keymap: set<nat>, combined: bool, slot: nat) {
    && Available(keymap, combined, slot)
    && (forall j :: 0 <= j < Stride(combined) && Partial(keymap, combined, j) ==>
          Home(combined, slot) <= j && Partial(keymap, combined, Home(combined, slot)))
    && forall s :: 0 <= s < slot && Available(keymap, combined, s) ==>
          Home(combined, s) != Home(combined, slot) && Partial(keymap, combined, Home(combined, slot))
  }

  function Footprint(combined: bool, idx: nat, cipher: Cipher): set<nat> {
    if cipher.Tkip? then Group(combined, idx) else {idx}
  }

  /** The bits set for a key. */
  function Mark(k: Keys, combined: bool, idx: nat, cipher: Cipher): Keys {
    Keys(k.keymap + Footprint(combined, idx, cipher),
         k.tkip + (if cipher.Tkip? then Group(combined, idx) else {}),
         k.ccmp + (if cipher.Ccmp? then {idx} else {}))
  }

  /** The bits cleared when a key is deleted. */
  function Unmark(k: Keys, combined: bool, idx: nat): Keys {
    if idx < WEP_NKID then k
    else
      var slots := if idx in k.tkip then Group(combined, idx) else {idx};
      Keys(k.keymap - slots, if idx in k.tkip then k.tkip - slots else k.tkip, k.ccmp - {idx})
  }

  // ---------- requests ----------

  datatype Interface = AccessPoint | AdHoc | OtherInterface

  datatype Request = Request(cipher: Cipher, keyLen: nat, pairwise: bool, interface: Interface, keyIdx: nat,
                             hasStation: bool)

  datatype Reply = Slot(idx: nat) | NotSupported | IoError | NoSpace

  /** Does the request name its slot, or does it want one of the cache? */
  predicate WantsSlot(q: Request) {
    if q.pairwise then q.keyIdx == 0
    else q.interface.AccessPoint? || (q.interface.AdHoc? && q.hasStation)
  }

  predicate HasMac(q: Request) { q.pairwise || WantsSlot(q) }

  /** Does the hardware take an entry of this kind at this slot? */
  predicate EntryAccepted(aesCcm: bool, q: Request, entry: nat) {
    && entry < KEYMAX
    && (q.cipher.Ccmp? ==> aesCcm)
    && (q.cipher.Tkip? ==> entry + 64 < KEYMAX)
    && (q.cipher.Wep? ==> q.keyLen >= 5)
  }

  predicate KeyAccepted(combined: bool, aesCcm: bool, q: Request, entry: nat) {
    && EntryAccepted(aesCcm, q, entry)
    && (q.cipher.Tkip? && HasMac(q) && !combined ==> EntryAccepted(aesCcm, q, entry + 32))
  }

  /** Where a key may go: default keys where they say, others to the place the policy names. */
  ghost predicate Allotted(keymap: set<nat>, combined: bool, cipher: Cipher, idx: nat) {
    && !cipher.Unsupported?
    && (idx < WEP_NKID
        || if cipher.Tkip? then FirstPlace(keymap, combined, idx) else BestFit(keymap, combined, idx))
  }

  // ---------- ownership ----------

  /** Outside of the groups of the default keys: live keys never share a slot, and the bitmaps say exactly which
      slots belong to live keys, to live TKIP keys and to live CCMP keys. */
  ghost predicate Owned(k: Keys, combined: bool, live: map<nat, Cipher>) {
    && (forall i :: i in live ==> forall s :: s in Footprint(combined, i, live[i]) ==> Usable(combined, s))
    && (forall i, j :: i in live && j in live && i != j ==>
          Footprint(combined, i, live[i]) !! Footprint(combined, j, live[j]))
    && (forall s :: Usable(combined, s) ==>
          (s in k.keymap <==> exists i :: i in live && s in Footprint(combined, i, live[i])))
    && (forall s :: Usable(combined, s) ==>
          (s in k.tkip <==> exists i :: i in live && live[i].Tkip? && s in Footprint(combined, i, live[i])))
    && (forall s :: Usable(combined, s) ==> (s in k.ccmp <==> s in live && live[s].Ccmp?))
    && (forall s :: Usable(combined, s) ==> !(s in k.tkip && s in k.ccmp))
  }

  ghost predicate TkipAt(live: map<nat, Cipher>, i: nat) { i in live && live[i].Tkip? }

  /** The same, slot by slot: the keys, and for each slot its owner. */
  ghost predicate LiveOk(combined: bool, live: map<nat, Cipher>) {
    && (forall i :: i in live ==> Usable(combined, i) && (live[i].Tkip? ==> i < Stride(combined)))
    && (forall j :: j in live && TkipAt(live, Home(combined, j)) ==> j == Home(combined, j))
  }

  ghost predicate SlotOk(k: Keys, combined: bool, live: map<nat, Cipher>, s: nat) {
    && (s in k.keymap <==> s in live || TkipAt(live, Home(combined, s)))
    && (s in k.tkip <==> TkipAt(live, Home(combined, s)))
    && (s in k.ccmp <==> s in live && live[s].Ccmp?)
  }

  ghost predicate Tidy(k: Keys, combined: bool, live: map<nat, Cipher>) {
    LiveOk(combined, live) && forall s :: Usable(combined, s) ==> SlotOk(k, combined, live, s)
  }

  lemma GroupMembers(combined: bool, i: nat, s: nat)
    requires i < Stride(combined)
    ensures s in Group(combined, i) <==> s < KEYMAX && Home(combined, s) == i
  {
  }

  lemma FootprintMembers(combined: bool, live: map<nat, Cipher>, i: nat, s: nat)
    requires LiveOk(combined, live) && i in live && Usable(combined, s)
    ensures s in Footprint(combined, i, live[i]) <==> s == i || (live[i].Tkip? && Home(combined, s) == i)
    ensures live[i].Tkip? ==> Home(combined, i) == i
  {
    if live[i].Tkip? {
      GroupMembers(combined, i, s);
    }
  }

  lemma FootprintUsable(combined: bool, live: map<nat, Cipher>, i: nat, s: nat)
    requires LiveOk(combined, live) && i in live && s in Footprint(combined, i, live[i])
    ensures Usable(combined, s)
  {
  }

  lemma SlotOwned(k: Keys, combined: bool, live: map<nat, Cipher>, s: nat)
    requires LiveOk(combined, live) && SlotOk(k, combined, live, s) && Usable(combined, s)
    ensures s in k.keymap <==> exists i :: i in live && s in Footprint(combined, i, live[i])
    ensures s in k.tkip <==> exists i :: i in live && live[i].Tkip? && s in Footprint(combined, i, live[i])
  {
    hide Home, Footprint, Usable;
    forall i | i in live
      ensures s in Footprint(combined, i, live[i]) <==> s == i || (live[i].Tkip? && Home(combined, s) == i)
      ensures live[i].Tkip? ==> Home(combined, i) == i
    {
      FootprintMembers(combined, live, i, s);
    }
    if s in live {
      assert s in Footprint(combined, s, live[s]);
    }
    if TkipAt(live, Home(combined, s)) {
      assert s in Footprint(combined, Home(combined, s), live[Home(combined, s)]);
    }
  }

  lemma FootprintsApart(combined: bool, live: map<nat, Cipher>, i: nat, j: nat)
    requires LiveOk(combined, live) && i in live && j in live && i != j
    ensures Footprint(combined, i, live[i]) !! Footprint(combined, j, live[j])
  {
    hide Home, Footprint, Usable;
    forall s ensures !(s in Footprint(combined, i, live[i]) && s in Footprint(combined, j, live[j])) {
      if s in Footprint(combined, i, live[i]) {
        FootprintUsable(combined, live, i, s);
        FootprintMembers(combined, live, i, s);
        FootprintMembers(combined, live, j, s);
      }
    }
  }

  lemma TidyIsOwned(k: Keys, combined: bool, live: map<nat, Cipher>)
    requires Tidy(k, combined, live)
    ensures Owned(k, combined, live)
  {
    hide Home, Footprint, LiveOk, Usable;
    forall s | Usable(combined, s)
      ensures SlotOk(k, combined, live, s)
      ensures s in k.keymap <==> exists i :: i in live && s in Footprint(combined, i, live[i])
      ensures s in k.tkip <==> exists i :: i in live && live[i].Tkip? && s in Footprint(combined, i, live[i])
      ensures !(s in k.tkip && s in k.ccmp)
    {
      SlotOwned(k, combined, live, s);
      CcmpIsNotTkip(k, combined, live, s);
    }
    forall i | i in live ensures forall s :: s in Footprint(combined, i, live[i]) ==> Usable(combined, s) {
      forall s | s in Footprint(combined, i, live[i]) ensures Usable(combined, s) {
        FootprintUsable(combined, live, i, s);
      }
    }
    forall i, j | i in live && j in live && i != j
      ensures Footprint(combined, i, live[i]) !! Footprint(combined, j, live[j])
    {
      FootprintsApart(combined, live, i, j);
    }
  }

  lemma CcmpIsNotTkip(k: Keys, combined: bool, live: map<nat, Cipher>, s: nat)
    requires LiveOk(combined, live) && SlotOk(k, combined, live, s)
    ensures !(s in k.tkip && s in k.ccmp)
  {
  }

  // ---------- one step ----------

  lemma DefaultKeyIsApart(k: Keys, combined: bool, live: map<nat, Cipher>, idx: nat, cipher: Cipher)
    requires Tidy(k, combined, live) && idx < WEP_NKID
    ensures Tidy(Mark(k, combined, idx, cipher), combined, live)
  {
    hide LiveOk, TkipAt;
    forall s | Usable(combined, s) ensures SlotOk(Mark(k, combined, idx, cipher), combined, live, s) {
      assert SlotOk(k, combined, live, s);
      GroupMembers(combined, idx, s);
    }
  }

  lemma TkipKeyStored(k: Keys, combined: bool, live: map<nat, Cipher>, idx: nat)
    requires Tidy(k, combined, live) && Place(k.keymap, combined, idx)
    ensures idx !in live
    ensures Tidy(Mark(k, combined, idx, Tkip), combined, live[idx := Tkip])
  {
    hide Group;
    GroupMembers(combined, idx, idx);
    assert SlotOk(k, combined, live, idx);
    var k', live' := Mark(k, combined, idx, Tkip), live[idx := Tkip];
    forall j | j in live ensures Home(combined, j) != idx {
      GroupMembers(combined, idx, j);
      assert SlotOk(k, combined, live, j);
    }
    forall s | Usable(combined, s) ensures SlotOk(k', combined, live', s) {
      assert SlotOk(k, combined, live, s);
      GroupMembers(combined, idx, s);
    }
  }

  lemma OtherKeyStored(k: Keys, combined: bool, live: map<nat, Cipher>, idx: nat, cipher: Cipher)
    requires Tidy(k, combined, live) && Available(k.keymap, combined, idx) && !cipher.Tkip?
    ensures idx !in live
    ensures Tidy(Mark(k, combined, idx, cipher), combined, live[idx := cipher])
  {
    hide Home;
    assert SlotOk(k, combined, live, idx);
    var k', live' := Mark(k, combined, idx, cipher), live[idx := cipher];
    forall s | Usable(combined, s) ensures SlotOk(k', combined, live', s) {
      assert SlotOk(k, combined, live, s);
      TkipStays(combined, live, idx, cipher, s);
    }
  }

  lemma TkipStays(combined: bool, live: map<nat, Cipher>, idx: nat, cipher: Cipher, s: nat)
    requires idx !in live && !cipher.Tkip?
    ensures TkipAt(live[idx := cipher], Home(combined, s)) <==> TkipAt(live, Home(combined, s))
  {
  }

  /** Storing a key where it is allotted keeps the ledger and the bitmaps in step. */
  lemma StoreKeepsTidy(k: Keys, combined: bool, live: map<nat, Cipher>, idx: nat, cipher: Cipher)
    requires Tidy(k, combined, live) && Allotted(k.keymap, combined, cipher, idx)
    ensures idx >= WEP_NKID ==> idx !in live
    ensures Tidy(Mark(k, combined, idx, cipher), combined, if idx < WEP_NKID then live else live[idx := cipher])
  {
    hide Tidy, Place, Mark, Available;
    if idx < WEP_NKID {
      DefaultKeyIsApart(k, combined, live, idx, cipher);
    } else if cipher.Tkip? {
      TkipKeyStored(k, combined, live, idx);
    } else {
      OtherKeyStored(k, combined, live, idx, cipher);
    }
  }

  lemma DeleteKeepsTidy(k: Keys, combined: bool, live: map<nat, Cipher>, idx: nat)
    requires Tidy(k, combined, live) && (idx < WEP_NKID || idx in live)
    ensures Tidy(Unmark(k, combined, idx), combined, live - (if idx < WEP_NKID then {} else {idx}))
  {
    hide Group;
    if idx >= WEP_NKID {
      assert SlotOk(k, combined, live, idx);
      var k', live' := Unmark(k, combined, idx), live - {idx};
      forall s | Usable(combined, s) ensures SlotOk(k', combined, live', s) {
        assert SlotOk(k, combined, live, s);
        if idx in k.tkip {
          GroupMembers(combined, idx, s);
        }
      }
    } else {
      assert live - {} == live;
    }
  }

  lemma UnmarkOutside(k: Keys, combined: bool, live: map<nat, Cipher>, idx: nat)
    requires Tidy(k, combined, live) && idx < KEYMAX && (!Usable(combined, idx) || (idx !in live && idx !in k.keymap))
    ensures Tidy(Unmark(k, combined, idx), combined, live)
  {
    hide Group;
    if Usable(combined, idx) {
      assert SlotOk(k, combined, live, idx);
    }
    forall s | Usable(combined, s) ensures SlotOk(Unmark(k, combined, idx), combined, live, s) {
      assert SlotOk(k, combined, live, s);
      if !Usable(combined, idx) {
        ReservedGroup(combined, idx, s);
      }
    }
  }

  /** The group of a slot that is not usable has no usable slot. */
  lemma ReservedGroup(combined: bool, idx: nat, s: nat)
    requires idx < KEYMAX && !Usable(combined, idx)
    ensures s in Group(combined, idx) ==> !Usable(combined, s)
  {
  }

  /** Deleting any index keeps bitmaps and live keys in step exactly if it is the index of a live key, lies outside of
      the usable slots, or is free: what goes wrong is to delete another slot of a TKIP key. */
  lemma DeleteKeepsTidyExactly(k: Keys, combined: bool, live: map<nat, Cipher>, idx: nat)
    requires Tidy(k, combined, live) && idx < KEYMAX
    ensures Tidy(Unmark(k, combined, idx), combined, live - {idx}) <==>
            idx in live || !Usable(combined, idx) || idx !in k.keymap
  {
    hide Tidy, Unmark;
    if idx in live {
      IsUsable(k, combined, live, idx);
      DeleteKeepsTidy(k, combined, live, idx);
    } else {
      assert live - {idx} == live;
      if !Usable(combined, idx) || idx !in k.keymap {
        UnmarkOutside(k, combined, live, idx);
      } else {
        UnmarkBreaks(k, combined, live, idx);
      }
    }
  }

  lemma IsUsable(k: Keys, combined: bool, live: map<nat, Cipher>, idx: nat)
    requires Tidy(k, combined, live) && idx in live
    ensures idx >= WEP_NKID
  {
  }

  lemma UnmarkBreaks(k: Keys, combined: bool, live: map<nat, Cipher>, idx: nat)
    requires Tidy(k, combined, live) && Usable(combined, idx) && idx in k.keymap && idx !in live
    ensures !Tidy(Unmark(k, combined, idx), combined, live)
  {
    hide Group, Home;
    assert SlotOk(k, combined, live, idx);
    UsableIsHigh(combined, idx);
    assert idx !in Unmark(k, combined, idx).keymap by { InOwnGroup(combined, idx); }
    assert !SlotOk(Unmark(k, combined, idx), combined, live, idx);
  }

  lemma UsableIsHigh(combined: bool, idx: nat)
    requires Usable(combined, idx)
    ensures idx >= WEP_NKID
  {
  }

  lemma InOwnGroup(combined: bool, idx: nat)
    ensures idx in Group(combined, idx)
  {
  }

  /** Deleting a key straight after it was stored in a slot of the cache gives back the bitmaps. */
  lemma DeleteUndoesStore(k: Keys, combined: bool, live: map<nat, Cipher>, idx: nat, cipher: Cipher)
    requires Tidy(k, combined, live) && Allotted(k.keymap, combined, cipher, idx) && idx >= WEP_NKID
    ensures Unmark(Mark(k, combined, idx, cipher), combined, idx) == k
  {
    hide Home, Group, TkipAt;
    var slots := Footprint(combined, idx, cipher);
    assert idx in slots && slots !! k.keymap && Usable(combined, idx) by { FreeFootprint(k, combined, cipher, idx); }
    assert SlotOk(k, combined, live, idx);
    if cipher.Tkip? {
      forall s | s in slots ensures s !in k.tkip {
        GroupMembers(combined, idx, s);
        GroupMembers(combined, idx, idx);
        assert SlotOk(k, combined, live, s);
      }
      assert k.tkip + slots - slots == k.tkip;
    }
    assert k.keymap + slots - slots == k.keymap;
    assert idx !in k.ccmp;
    assert k.ccmp + {idx} - {idx} == k.ccmp && k.ccmp + {} - {idx} == k.ccmp;
  }

  lemma FreeFootprint(k: Keys, combined: bool, cipher: Cipher, idx: nat)
    requires Allotted(k.keymap, combined, cipher, idx) && idx >= WEP_NKID
    ensures idx in Footprint(combined, idx, cipher) && Footprint(combined, idx, cipher) !! k.keymap
    ensures Usable(combined, idx)
  {
  }

  /** What is stored and deleted, bit by bit. */
  lemma BitsExactly(k: Keys, combined: bool, idx: nat, cipher: Cipher, s: nat)
    ensures var part := s == idx || s == idx + 64 || (!combined && (s == idx + 32 || s == idx + 96));
            var stored, deleted := Mark(k, combined, idx, cipher), Unmark(k, combined, idx);
            && (s in stored.keymap <==> s in k.keymap || s == idx || (cipher == Tkip && part))
            && (s in stored.tkip <==> s in k.tkip || (cipher == Tkip && part))
            && (s in stored.ccmp <==> s in k.ccmp || (cipher == Ccmp && s == idx))
            && (s in deleted.keymap <==> s in k.keymap && (s != idx || idx < 4) && !(part && idx >= 4 && idx in k.tkip))
            && (s in deleted.tkip <==> s in k.tkip && !(part && idx >= 4 && idx in k.tkip))
            && (s in deleted.ccmp <==> s in k.ccmp && (s != idx || idx < 4))
  {
  }

  // ---------- the policy ----------

  /** Which slots are open to TKIP keys, and which to others. */
  lemma OpenSlots(keymap: set<nat>, combined: bool, s: nat)
    ensures Place(keymap, combined, s) <==>
            && 4 <= s < (if combined then 64 else 32) && s !in keymap && s + 64 !in keymap
            && (combined || (s + 32 !in keymap && s + 96 !in keymap))
    ensures Available(keymap, combined, s) <==>
            && s !in keymap && 4 <= s < 128 && !(64 <= s < 68)
            && (combined || !(32 <= s < 36 || 96 <= s < 100))
    ensures Partial(keymap, combined, s) <==>
            && 4 <= s < (if combined then 64 else 32)
            && if combined then s in keymap <==> s + 64 !in keymap
               else
                 && !(s !in keymap && s + 32 !in keymap && s + 64 !in keymap && s + 96 !in keymap)
                 && !(s in keymap && s + 32 in keymap && s + 64 in keymap && s + 96 in keymap)
  {
    assert s in Group(combined, s) && s + 64 in Group(combined, s);
    if !combined {
      assert s + 32 in Group(combined, s) && s + 96 in Group(combined, s);
    }
    var taken := Group(combined, s) * keymap;
    if x :| x in taken {
      assert x in Group(combined, s);
    }
  }

  /** The groups a TKIP key could take. */
  function Places(keymap: set<nat>, combined: bool): (r: set<nat>) {
    set i: nat | i < Stride(combined) && Place(keymap, combined, i)
  }

  lemma PlacesAfter(keymap: set<nat>, combined: bool, slot: nat)
    requires Available(keymap, combined, slot)
    ensures Places(keymap + {slot}, combined) == Places(keymap, combined) - {Home(combined, slot)}
  {
  }

  lemma NoPartialMeansPlace(keymap: set<nat>, combined: bool, slot: nat)
    requires Available(keymap, combined, slot) && !Partial(keymap, combined, Home(combined, slot))
    ensures Home(combined, slot) in Places(keymap, combined)
  {
    hide Group;
    var i := Home(combined, slot);
    GroupMembers(combined, i, slot);
    assert !(Group(combined, i) <= keymap);
    forall s | s in Group(combined, i) ensures s !in keymap {
      assert s in keymap ==> s in Group(combined, i) * keymap;
    }
  }

  /** The slot picked for another cipher costs a TKIP place exactly when no group is partly used. */
  lemma BestFitCost(keymap: set<nat>, combined: bool, slot: nat)
    requires BestFit(keymap, combined, slot)
    ensures Places(keymap + {slot}, combined) < Places(keymap, combined) <==>
            forall j :: 0 <= j < Stride(combined) ==> !Partial(keymap, combined, j)
  {
    hide Places, Available;
    PlacesAfter(keymap, combined, slot);
    var home := Home(combined, slot);
    if !Partial(keymap, combined, home) {
      NoPartialMeansPlace(keymap, combined, slot);
    } else {
      hide Home;
      assert home !in Places(keymap, combined) by { PartialIsNoPlace(keymap, combined, home); }
    }
  }

  lemma PartialIsNoPlace(keymap: set<nat>, combined: bool, i: nat)
    requires Partial(keymap, combined, i)
    ensures i !in Places(keymap, combined) && i < Stride(combined)
  {
  }

  /** No other free slot would leave more places for TKIP keys. */
  lemma BestFitIsBest(keymap: set<nat>, combined: bool, slot: nat, other: nat)
    requires BestFit(keymap, combined, slot) && Available(keymap, combined, other)
    ensures |Places(keymap + {slot}, combined)| >= |Places(keymap + {other}, combined)|
  {
    hide Places, Available, Home;
    PlacesAfter(keymap, combined, slot);
    PlacesAfter(keymap, combined, other);
    var all := Places(keymap, combined);
    if Partial(keymap, combined, Home(combined, slot)) {
      PartialIsNoPlace(keymap, combined, Home(combined, slot));
      assert all - {Home(combined, slot)} == all;
      Fewer(all, Home(combined, other));
    } else {
      assert Home(combined, other) < Stride(combined) by { HomeInRange(combined, other); }
      NoPartialMeansPlace(keymap, combined, other);
      NoPartialMeansPlace(keymap, combined, slot);
    }
  }

  lemma HomeInRange(combined: bool, slot: nat)
    ensures Home(combined, slot) < Stride(combined)
  {
  }

  lemma Fewer<T>(s: set<T>, x: T)
    ensures |s - {x}| <= |s|
  {
  }

  // ---------- whole runs ----------

  datatype Event = Stored(cipher: Cipher, idx: nat) | Failed | Deleted(idx: nat)

  datatype State = State(keys: Keys, live: map<nat, Cipher>)

  function After(st: State, combined: bool, e: Event): State {
    match e
    case Stored(cipher, idx) =>
      State(Mark(st.keys, combined, idx, cipher), if idx < WEP_NKID then st.live else st.live[idx := cipher])
    case Failed => st
    case Deleted(idx) => State(Unmark(st.keys, combined, idx), st.live - (if idx < WEP_NKID then {} else {idx}))
  }

  ghost predicate Possible(st: State, combined: bool, e: Event) {
    match e
    case Stored(cipher, idx) => Allotted(st.keys.keymap, combined, cipher, idx)
    case Failed => true
    case Deleted(idx) => idx < WEP_NKID || idx in st.live
  }

  function Run(combined: bool, events: seq<Event>): State {
    if events == [] then State(Keys({}, {}, {}), map[])
    else After(Run(combined, events[..|events| - 1]), combined, events[|events| - 1])
  }

  ghost predicate PossibleRun(combined: bool, events: seq<Event>) {
    forall k :: 0 <= k < |events| ==> Possible(Run(combined, events[..k]), combined, events[k])
  }

  lemma {:induction false} RunIsTidy(combined: bool, events: seq<Event>)
    requires PossibleRun(combined, events)
    ensures Tidy(Run(combined, events).keys, combined, Run(combined, events).live)
  {
    hide Tidy, Possible, After;
    if events != [] {
      var front := events[..|events| - 1];
      forall k | 0 <= k < |front| ensures Possible(Run(combined, front[..k]), combined, front[k]) {
        assert front[..k] == events[..k];
      }
      RunIsTidy(combined, front);
      StepIsTidy(Run(combined, front), combined, events[|events| - 1]);
    } else {
      EmptyIsTidy(combined);
    }
  }

  lemma EmptyIsTidy(combined: bool)
    ensures Tidy(Keys({}, {}, {}), combined, map[])
  {
  }

  lemma StepIsTidy(st: State, combined: bool, e: Event)
    requires Tidy(st.keys, combined, st.live) && Possible(st, combined, e)
    ensures Tidy(After(st, combined, e).keys, combined, After(st, combined, e).live)
  {
    hide Tidy, Allotted, Mark, Unmark;
    match e
    case Stored(cipher, idx) => StoreKeepsTidy(st.keys, combined, st.live, idx, cipher);
    case Failed =>
    case Deleted(idx) => DeleteKeepsTidy(st.keys, combined, st.live, idx);
  }

  /** After any run of stores, failed stores and deletions, live keys own disjoint slots and the bitmaps are exactly
      their slots. */
  lemma RunIsOwned(combined: bool, events: seq<Event>)
    requires PossibleRun(combined, events)
    ensures Owned(Run(combined, events).keys, combined, Run(combined, events).live)
  {
    RunIsTidy(combined, events);
    TidyIsOwned(Run(combined, events).keys, combined, Run(combined, events).live);
  }
}
