/** The primitive steps of the address manager and what each does to the invariant (src/addrman.cpp). */
module AddrManSteps {
  import opened AddrMan

  // ---------------------------------------------------------------- what carries over unchanged

  /** Equal but for the position in the random order. */
  predicate SameEntry(a: Info, b: Info) {
    a == b.(randomPos := a.randomPos)
  }

  /** Equal but for the place in the tables and in the random order. */
  predicate SameFacts(a: Info, b: Info) {
    a == b.(refCount := a.refCount, inTried := a.inTried, randomPos := a.randomPos)
  }

  /** What happens to the entries when some are lost and none becomes tried but `id`. */
  ghost predicate EntriesKept(s: State, r: State, lost: set<int>, id: int) {
    && r.info.Keys == s.info.Keys - lost
    && forall x :: x in r.info ==>
         x in s.info && SameFacts(r.info[x], s.info[x]) && (r.info[x].inTried ==> x == id || s.info[x].inTried)
  }

  /** Removing entries together with their addresses keeps the address index. */
  lemma AddrFrame(s: State, r: State, lost: set<int>, id: int)
    requires AddrOk(s) && EntriesKept(s, r, lost, id) && r.addr == s.addr - Ips(s, lost)
    ensures AddrOk(r)
  {
    forall x | x in r.info ensures r.info[x].service.ip in r.addr && r.addr[r.info[x].service.ip] == x {
      var ip := s.info[x].service.ip;
      assert s.addr[ip] == x;
      assert x in s.info.Keys - lost;
      forall y | y in lost && y in s.info ensures s.info[y].service.ip != ip {
        assert s.addr[s.info[y].service.ip] == y;
      }
      assert ip !in Ips(s, lost);
    }
    forall ip | ip in r.addr ensures r.addr[ip] in r.info && r.info[r.addr[ip]].service.ip == ip {
      var x := s.addr[ip];
      assert x in s.info && s.info[x].service.ip == ip;
      assert x in lost ==> ip in Ips(s, lost);
      assert x in s.info.Keys - lost;
    }
  }

  lemma CountsFrame(a: map<int, Info>, b: map<int, Info>)
    requires a.Keys == b.Keys && forall id :: id in a ==> a[id].inTried == b[id].inTried
    ensures TriedIds(a) == TriedIds(b) && NewIds(a) == NewIds(b)
  {
    forall id ensures id in TriedIds(a) <==> id in TriedIds(b) {
      assert id in a <==> id in b;
    }
    forall id ensures id in NewIds(a) <==> id in NewIds(b) {
      assert id in a <==> id in b;
    }
  }

  lemma NewTableFrame(h: Hashing, s: State, r: State)
    requires NewTableOk(h, s) && r.key == s.key
    requires forall slot :: slot in r.newTable ==>
      && slot in s.newTable && s.newTable[slot] == r.newTable[slot] && r.newTable[slot] in r.info
      && (s.newTable[slot] in s.info ==> r.info[r.newTable[slot]].service == s.info[s.newTable[slot]].service
                                         && r.info[r.newTable[slot]].inTried == s.info[s.newTable[slot]].inTried)
    ensures NewTableOk(h, r)
  {
    hide SlotIn;
  }

  lemma TriedTableFrame(h: Hashing, s: State, r: State)
    requires TriedTableOk(h, s) && r.key == s.key
    requires forall slot :: slot in r.triedTable ==>
      && slot in s.triedTable && s.triedTable[slot] == r.triedTable[slot] && r.triedTable[slot] in r.info
      && (s.triedTable[slot] in s.info ==> r.info[r.triedTable[slot]].service == s.info[s.triedTable[slot]].service
                                           && r.info[r.triedTable[slot]].inTried == s.info[s.triedTable[slot]].inTried)
    ensures TriedTableOk(h, r)
  {
    hide TriedSlot;
  }

  lemma EntryFrame(h: Hashing, s: State, r: State, id: int, inLimbo: bool)
    requires id in s.info && id in r.info && EntryOk(h, s, id, inLimbo) && SameEntry(r.info[id], s.info[id])
    requires r.key == s.key && Holding(r.newTable, id) == Holding(s.newTable, id)
    requires s.info[id].inTried ==>
      var slot := TriedSlot(h, s.key, s.info[id].service);
      slot in s.triedTable ==> slot in r.triedTable && r.triedTable[slot] == s.triedTable[slot]
    ensures EntryOk(h, r, id, inLimbo)
  {
    hide TriedSlot, Holding;
  }

  // ---------------------------------------------------------------- the random order

  /** `SwapRandom`. */
  function Swapped(s: State, i: int, j: int): State
    requires IndexOk(s) && 0 <= i < |s.random| && 0 <= j < |s.random|
  {
    if i == j then s
    else
      var (a, b) := (s.random[i], s.random[j]);
      var info := s.info[a := s.info[a].(randomPos := j)];
      s.(info := info[b := info[b].(randomPos := i)], random := s.random[i := b][j := a])
  }

  /** Nothing but the random order changes, and that stays the inverse of the recorded positions. */
  lemma SwappedKeeps(s: State, i: int, j: int)
    requires IndexOk(s) && 0 <= i < |s.random| && 0 <= j < |s.random|
    ensures var r := Swapped(s, i, j);
            && IndexOk(r) && r == s.(info := r.info, random := r.random) && |r.random| == |s.random|
            && r.random[j] == s.random[i] && r.random[i] == s.random[j]
            && r.info.Keys == s.info.Keys && forall id :: id in s.info ==> SameEntry(r.info[id], s.info[id])
  {
    if i != j {
      var r := Swapped(s, i, j);
      var a, b := s.random[i], s.random[j];
      assert s.info[a].randomPos == i && s.info[b].randomPos == j;
      SwapInfo(s.info, a, b, i, j);
      assert r.info == s.info[a := s.info[a].(randomPos := j)][b := s.info[b].(randomPos := i)];
      forall k | 0 <= k < |r.random| ensures r.random[k] in r.info && r.info[r.random[k]].randomPos == k {
        assert k != i && k != j ==> s.info[s.random[k]].randomPos == k;
      }
    }
  }

  lemma SwapInfo(info: map<int, Info>, a: int, b: int, i: int, j: int)
    requires a in info && b in info && a != b
    ensures var r := info[a := info[a].(randomPos := j)][b := info[b].(randomPos := i)];
            && r.Keys == info.Keys && r[a].randomPos == j && r[b].randomPos == i
            && (forall id :: id in info && id != a && id != b ==> r[id] == info[id])
            && forall id :: id in info ==> SameEntry(r[id], info[id])
  {
    var r := info[a := info[a].(randomPos := j)][b := info[b].(randomPos := i)];
    assert r.Keys == info.Keys + {a} + {b};
  }

  /** The part of the invariant that does not mention the random order. */
  ghost predicate BodyOk(h: Hashing, s: State, limbo: set<int>, extra: int) {
    NewTableOk(h, s) && TriedTableOk(h, s) && EntriesOk(h, s, limbo) && CountsOk(s, extra)
  }

  lemma BodyFrame(h: Hashing, s: State, r: State, limbo: set<int>, extra: int)
    requires BodyOk(h, s, limbo, extra) && r == s.(info := r.info, random := r.random)
    requires r.info.Keys == s.info.Keys && forall id :: id in s.info ==> SameEntry(r.info[id], s.info[id])
    ensures BodyOk(h, r, limbo, extra)
  {
    hide Holding, TriedSlot, SlotIn, EntryOk, TriedIds, NewIds;
    forall id | id in s.info ensures id in r.info && SameEntry(r.info[id], s.info[id]) {
      assert id in r.info.Keys;
    }
    CountsFrame(r.info, s.info);
    assert NewTableOk(h, r) by {
      forall slot | slot in s.newTable ensures SameEntry(r.info[s.newTable[slot]], s.info[s.newTable[slot]]) {
        assert s.newTable[slot] in s.info;
      }
      NewTableFrame(h, s, r);
    }
    assert TriedTableOk(h, r) by {
      forall slot | slot in s.triedTable ensures SameEntry(r.info[s.triedTable[slot]], s.info[s.triedTable[slot]]) {
        assert s.triedTable[slot] in s.info;
      }
      TriedTableFrame(h, s, r);
    }
    forall id | id in r.info ensures EntryOk(h, r, id, id in limbo) {
      EntryFrame(h, s, r, id, id in limbo);
    }
  }

  lemma SwappedMidway(h: Hashing, s: State, i: int, j: int, limbo: set<int>, extra: int)
    requires Midway(h, s, limbo, extra) && 0 <= i < |s.random| && 0 <= j < |s.random|
    ensures Midway(h, Swapped(s, i, j), limbo, extra)
  {
    hide Swapped, NewTableOk, TriedTableOk, EntriesOk, CountsOk;
    SwappedKeeps(s, i, j);
    BodyFrame(h, s, Swapped(s, i, j), limbo, extra);
  }

  // ---------------------------------------------------------------- creating and deleting

  /** An entry gets the next id and the last place in the random order. */
  function Admitted(s: State, i: Info): State {
    s.(idCount := s.idCount + 1, info := s.info[s.idCount := i.(randomPos := |s.random|)],
       addr := s.addr[i.service.ip := s.idCount], random := s.random + [s.idCount])
  }

  lemma AdmittedIndex(s: State, i: Info)
    requires IndexOk(s)
    ensures IndexOk(Admitted(s, i)) && s.idCount !in s.info
  {
    var r, id := Admitted(s, i), s.idCount;
    assert id !in s.info;
    forall k | 0 <= k < |r.random| ensures r.random[k] in r.info && r.info[r.random[k]].randomPos == k {
      assert k < |s.random| ==> r.random[k] == s.random[k] != id;
    }
  }

  /** The entry is in limbo and not counted yet. */
  lemma AdmittedMidway(h: Hashing, s: State, i: Info, limbo: set<int>, extra: int)
    requires Midway(h, s, limbo, extra) && i.refCount == 0 && !i.inTried
    ensures Midway(h, Admitted(s, i), limbo + {s.idCount}, extra + 1)
    ensures s.idCount !in s.info
  {
    hide IndexOk, TriedSlot, SlotIn, TriedIds, NewIds, Holding;
    var r, id := Admitted(s, i), s.idCount;
    AdmittedIndex(s, i);
    NoneHeld(s.newTable, id);
    CountsInsert(s.info, id, r.info[id]);
    NewTableFrame(h, s, r);
    TriedTableFrame(h, s, r);
    forall x | x in r.info ensures EntryOk(h, r, x, x in limbo + {id}) {
      if x != id {
        EntryFrame(h, s, r, x, x in limbo);
      }
    }
  }

  /** `Create`. */
  function Created(s: State, a: Address, source: NetAddr): State {
    Admitted(s, Info(a.service, a.services, a.time, source, 0, 0, 0, 0, false, -1))
  }

  lemma CreatedMidway(h: Hashing, s: State, a: Address, source: NetAddr)
    requires Midway(h, s, {}, 0)
    ensures Midway(h, Created(s, a, source), {s.idCount}, 1)
    ensures s.idCount !in s.info
  {
    hide Midway;
    AdmittedMidway(h, s, Info(a.service, a.services, a.time, source, 0, 0, 0, 0, false, -1), {}, 0);
    assert {} + {s.idCount} == {s.idCount};
  }

  /** The entry last in the random order takes the place of the deleted one. */
  function Deleted(s: State, id: int): State
    requires IndexOk(s) && id in s.info
  {
    var t := Swapped(s, s.info[id].randomPos, |s.random| - 1);
    SwappedKeeps(s, s.info[id].randomPos, |s.random| - 1);
    t.(random := t.random[..|t.random| - 1], addr := t.addr - {s.info[id].service.ip}, info := t.info - {id},
       nNew := t.nNew - 1)
  }

  /** Removing the last of the random order. */
  function Popped(s: State): State
    requires IndexOk(s) && s.random != []
  {
    var id := s.random[|s.random| - 1];
    s.(random := s.random[..|s.random| - 1], addr := s.addr - {s.info[id].service.ip}, info := s.info - {id},
       nNew := s.nNew - 1)
  }

  lemma PoppedIndex(s: State)
    requires IndexOk(s) && s.random != []
    ensures IndexOk(Popped(s))
  {
    var id, r := s.random[|s.random| - 1], Popped(s);
    forall k | 0 <= k < |r.random| ensures r.random[k] in r.info && r.info[r.random[k]].randomPos == k {
      assert s.random[k] != id;
    }
  }

  lemma PoppedMidway(h: Hashing, s: State, limbo: set<int>, extra: int)
    requires Midway(h, s, limbo, extra) && s.random != [] && s.random[|s.random| - 1] in limbo
    ensures Midway(h, Popped(s), limbo - {s.random[|s.random| - 1]}, extra)
  {
    hide TriedSlot, SlotIn, Holding, TriedIds, NewIds;
    var id := s.random[|s.random| - 1];
    var r := Popped(s);
    assert EntryOk(h, s, id, true);
    assert IndexOk(r) by { PoppedIndex(s); }
    hide IndexOk;
    NoneHeld(s.newTable, id);
    CountsRemove(s.info, id);
    NewTableFrame(h, s, r);
    TriedTableFrame(h, s, r);
    forall x | x in r.info ensures EntryOk(h, r, x, x in limbo - {id}) {
      EntryFrame(h, s, r, x, x in limbo);
    }
  }

  /** Deleting an unreferenced entry. */
  lemma DeletedMidway(h: Hashing, s: State, id: int, limbo: set<int>, extra: int)
    requires Midway(h, s, limbo, extra) && id in limbo
    ensures id in s.info && Midway(h, Deleted(s, id), limbo - {id}, extra)
    ensures Deleted(s, id).info.Keys == s.info.Keys - {id}
    ensures Deleted(s, id).addr == s.addr - {s.info[id].service.ip}
    ensures forall x :: x in Deleted(s, id).info ==> SameEntry(Deleted(s, id).info[x], s.info[x])
  {
    hide NewTableOk, TriedTableOk, EntryOk, CountsOk, Swapped;
    var i, n := s.info[id].randomPos, |s.random| - 1;
    SwappedKeeps(s, i, n);
    SwappedMidway(h, s, i, n, limbo, extra);
    var t := Swapped(s, i, n);
    assert t.random[n] == id;
    assert SameEntry(t.info[id], s.info[id]);
    assert Deleted(s, id) == Popped(t);
    hide IndexOk;
    PoppedMidway(h, t, limbo, extra);
  }

  // ---------------------------------------------------------------- editing one entry

  /** Only entry `id` changes, and neither its address nor its place in the random order. */
  predicate Edited(s: State, r: State, id: int) {
    && id in s.info && id in r.info && r.info == s.info[id := r.info[id]]
    && r.info[id].service == s.info[id].service && r.info[id].randomPos == s.info[id].randomPos
    && r.key == s.key && r.idCount == s.idCount && r.random == s.random && r.addr == s.addr
  }

  lemma EditedIndex(s: State, r: State, id: int)
    requires IndexOk(s) && Edited(s, r, id)
    ensures IndexOk(r) && r.info.Keys == s.info.Keys
  {
    assert r.info.Keys == s.info.Keys + {id};
  }

  /** No other entry gains or loses a slot. */
  ghost predicate OthersKeepSlots(h: Hashing, s: State, r: State, id: int) {
    && (forall x :: x != id ==> Holding(r.newTable, x) == Holding(s.newTable, x))
    && (forall slot :: slot in s.triedTable && s.triedTable[slot] != id ==>
          slot in r.triedTable && r.triedTable[slot] == s.triedTable[slot])
  }

  lemma EditedEntries(h: Hashing, s: State, r: State, id: int, limbo: set<int>, limbo': set<int>)
    requires EntriesOk(h, s, limbo) && Edited(s, r, id) && OthersKeepSlots(h, s, r, id)
    requires limbo' - {id} == limbo - {id} && EntryOk(h, r, id, id in limbo')
    ensures EntriesOk(h, r, limbo')
  {
    hide TriedSlot, Holding;
    assert r.info.Keys == s.info.Keys + {id};
    forall x | x in r.info ensures EntryOk(h, r, x, x in limbo') {
      if x != id {
        assert x in s.info && r.info[x] == s.info[x];
        assert x in limbo' - {id} <==> x in limbo - {id};
        EntryFrame(h, s, r, x, x in limbo);
      }
    }
    forall x | x in limbo' ensures x in r.info {
      assert x != id ==> x in limbo' - {id};
    }
  }

  lemma NewTableEdited(h: Hashing, s: State, r: State, id: int)
    requires NewTableOk(h, s) && Edited(s, r, id) && !r.info[id].inTried
    requires forall slot :: slot in r.newTable ==>
      || (slot in s.newTable && r.newTable[slot] == s.newTable[slot])
      || (r.newTable[slot] == id && 0 <= slot.0 < NEW_BUCKET_COUNT && slot == SlotIn(h, s.key, slot.0, s.info[id].service))
    ensures NewTableOk(h, r)
  {
    hide SlotIn;
  }

  // ---------------------------------------------------------------- statistics

  /** New statistics for an entry that stays where it is. */
  predicate SamePlace(a: Info, b: Info) {
    a.service == b.service && a.refCount == b.refCount && a.inTried == b.inTried && a.randomPos == b.randomPos
  }

  lemma UpdatedMidway(h: Hashing, s: State, id: int, i: Info, limbo: set<int>, extra: int)
    requires Midway(h, s, limbo, extra) && id in s.info && SamePlace(i, s.info[id])
    ensures Midway(h, s.(info := s.info[id := i]), limbo, extra)
  {
    hide IndexOk, TriedSlot, SlotIn, Holding, TriedIds, NewIds;
    var r := s.(info := s.info[id := i]);
    assert EntryOk(h, s, id, id in limbo);
    EditedIndex(s, r, id);
    CountsSame(s.info, id, i);
    NewTableFrame(h, s, r);
    TriedTableFrame(h, s, r);
    EditedEntries(h, s, r, id, limbo, limbo);
  }

  // ---------------------------------------------------------------- references from the new table

  /** Take an entry out of a slot of the new table. */
  function Unreferenced(s: State, slot: Slot): State
    requires slot in s.newTable && s.newTable[slot] in s.info
  {
    var id := s.newTable[slot];
    s.(newTable := s.newTable - {slot}, info := s.info[id := s.info[id].(refCount := s.info[id].refCount - 1)])
  }

  /** The entry is in limbo when that was its last reference. */
  lemma UnreferencedMidway(h: Hashing, s: State, slot: Slot, limbo: set<int>, extra: int)
    requires Midway(h, s, limbo, extra) && slot in s.newTable
    ensures var id := s.newTable[slot];
            && id in s.info && id !in limbo && s.info[id].refCount == |Holding(s.newTable, id)| >= 1
            && Midway(h, Unreferenced(s, slot), if s.info[id].refCount == 1 then limbo + {id} else limbo, extra)
  {
    hide IndexOk, TriedSlot, SlotIn, TriedIds, NewIds, Holding;
    var id := s.newTable[slot];
    var r := Unreferenced(s, slot);
    assert EntryOk(h, s, id, id in limbo);
    HoldingRemove(s.newTable, slot);
    EditedIndex(s, r, id);
    CountsSame(s.info, id, r.info[id]);
    NewTableEdited(h, s, r, id);
    TriedTableFrame(h, s, r);
    EditedEntries(h, s, r, id, limbo, if s.info[id].refCount == 1 then limbo + {id} else limbo);
  }

  /** `ClearNew`. */
  function Cleared(s: State, slot: Slot): State
    requires IndexOk(s) && (slot in s.newTable ==> s.newTable[slot] in s.info)
  {
    if slot !in s.newTable then s
    else
      var id, t := s.newTable[slot], Unreferenced(s, slot);
      UnreferencedIndex(s, slot);
      if t.info[id].refCount == 0 then Deleted(t, id) else t
  }

  lemma UnreferencedIndex(s: State, slot: Slot)
    requires IndexOk(s) && slot in s.newTable && s.newTable[slot] in s.info
    ensures IndexOk(Unreferenced(s, slot))
  {
  }

  /** Put an entry into a slot of the new table. */
  function Referenced(s: State, slot: Slot, id: int): State
    requires id in s.info
  {
    s.(newTable := s.newTable[slot := id], info := s.info[id := s.info[id].(refCount := s.info[id].refCount + 1)])
  }

  lemma ReferencedMidway(h: Hashing, s: State, slot: Slot, id: int, limbo: set<int>, extra: int)
    requires Midway(h, s, limbo, extra) && id in s.info && slot !in s.newTable
    requires !s.info[id].inTried && s.info[id].refCount < NEW_BUCKETS_PER_ADDRESS
    requires 0 <= slot.0 < NEW_BUCKET_COUNT && slot == SlotIn(h, s.key, slot.0, s.info[id].service)
    ensures Midway(h, Referenced(s, slot, id), limbo - {id}, extra)
  {
    hide IndexOk, TriedSlot, SlotIn, TriedIds, NewIds, Holding;
    var r := Referenced(s, slot, id);
    assert EntryOk(h, s, id, id in limbo);
    HoldingAdd(s.newTable, slot, id);
    EditedIndex(s, r, id);
    CountsSame(s.info, id, r.info[id]);
    NewTableEdited(h, s, r, id);
    TriedTableFrame(h, s, r);
    EditedEntries(h, s, r, id, limbo, limbo - {id});
  }

  /** The entry whose only reference is a given slot. */
  function Lost(s: State, slot: Slot): set<int> {
    if slot in s.newTable && |Holding(s.newTable, s.newTable[slot])| == 1 then {s.newTable[slot]} else {}
  }

  /** The addresses of some entries. */
  function Ips(s: State, ids: set<int>): set<NetAddr> {
    set id | id in ids && id in s.info :: s.info[id].service.ip
  }

  /** A slot is emptied; an entry disappears exactly when that was its only reference, and no other changes. */
  lemma ClearedMidway(h: Hashing, s: State, slot: Slot, limbo: set<int>, extra: int)
    requires Midway(h, s, limbo, extra)
    ensures slot in s.newTable ==> s.newTable[slot] in s.info && s.newTable[slot] !in limbo
    ensures var r := Cleared(s, slot);
            && Midway(h, r, limbo, extra) && r.newTable == s.newTable - {slot}
            && r == s.(newTable := r.newTable, info := r.info, addr := r.addr, random := r.random, nNew := r.nNew)
            && r.info.Keys == s.info.Keys - Lost(s, slot)
            && r.addr == s.addr - Ips(s, Lost(s, slot))
            && forall x :: x in r.info ==>
                 SameEntry(r.info[x], s.info[x].(refCount := s.info[x].refCount - (if slot in s.newTable && s.newTable[slot] == x then 1 else 0)))
  {
    hide IndexOk, NewTableOk, TriedTableOk, EntriesOk, CountsOk, Holding, Deleted;
    if slot in s.newTable {
      UnreferencedMidway(h, s, slot, limbo, extra);
      var id, t := s.newTable[slot], Unreferenced(s, slot);
      assert t.info.Keys == s.info.Keys;
      if t.info[id].refCount == 0 {
        assert Lost(s, slot) == {id};
        DeletedMidway(h, t, id, limbo + {id}, extra);
        assert limbo + {id} - {id} == limbo;
        DeletedRest(t, id);
      }
    } else {
      assert s.newTable - {slot} == s.newTable;
    }
  }

  lemma DeletedRest(s: State, id: int)
    requires IndexOk(s) && id in s.info
    ensures var r := Deleted(s, id);
            r == s.(info := r.info, addr := r.addr, random := r.random, nNew := r.nNew)
  {
    SwappedKeeps(s, s.info[id].randomPos, |s.random| - 1);
  }

  // ---------------------------------------------------------------- between the two tables

  /** The loop at the start of `MakeTried`: look at one slot of every bucket and drop the references found. */
  function Sweep(h: Hashing, s: State, id: int, bucket: int): State
    requires id in s.info && 0 <= bucket <= NEW_BUCKET_COUNT
    decreases NEW_BUCKET_COUNT - bucket
  {
    if bucket == NEW_BUCKET_COUNT then s
    else Sweep(h, SweepOne(h, s, id, bucket), id, bucket + 1)
  }

  function SweepOne(h: Hashing, s: State, id: int, bucket: int): State
    requires id in s.info
  {
    var slot := SlotIn(h, s.key, bucket, s.info[id].service);
    if slot in s.newTable && s.newTable[slot] == id then Unreferenced(s, slot) else s
  }

  /** An entry without any reference. */
  function Unlisted(s: State, id: int): State
    requires id in s.info
  {
    s.(newTable := s.newTable - Holding(s.newTable, id), info := s.info[id := s.info[id].(refCount := 0)])
  }

  lemma UnlistedStep(s: State, slot: Slot)
    requires slot in s.newTable && s.newTable[slot] in s.info
    ensures Unlisted(Unreferenced(s, slot), s.newTable[slot]) == Unlisted(s, s.newTable[slot])
  {
    var id := s.newTable[slot];
    HoldingRemove(s.newTable, slot);
    assert s.newTable - {slot} - (Holding(s.newTable, id) - {slot}) == s.newTable - Holding(s.newTable, id);
  }

  /** The references of an entry, all of them in the buckets from `bucket` on. */
  ghost predicate ReferencesFrom(h: Hashing, s: State, id: int, bucket: int) {
    && NewTableOk(h, s) && id in s.info && !s.info[id].inTried
    && s.info[id].refCount == |Holding(s.newTable, id)|
    && forall slot :: slot in s.newTable && s.newTable[slot] == id ==> bucket <= slot.0
  }

  lemma SweepOneStep(h: Hashing, s: State, id: int, bucket: int)
    requires ReferencesFrom(h, s, id, bucket)
    ensures var t := SweepOne(h, s, id, bucket);
            ReferencesFrom(h, t, id, bucket + 1) && Unlisted(t, id) == Unlisted(s, id)
  {
    hide SlotIn, Holding, Unlisted;
    var slot, t := SlotIn(h, s.key, bucket, s.info[id].service), SweepOne(h, s, id, bucket);
    assert forall x :: x in s.newTable && s.newTable[x] == id && x.0 == bucket ==> x == slot;
    if slot in s.newTable && s.newTable[slot] == id {
      UnlistedStep(s, slot);
      HoldingRemove(s.newTable, slot);
      NewTableFrame(h, s, t);
    }
  }

  /** The sweep finds every reference, so the count it leaves is exactly zero. */
  lemma {:induction false} SweepUnlists(h: Hashing, s: State, id: int, bucket: int)
    requires 0 <= bucket <= NEW_BUCKET_COUNT && ReferencesFrom(h, s, id, bucket)
    ensures Sweep(h, s, id, bucket) == Unlisted(s, id)
    decreases NEW_BUCKET_COUNT - bucket
  {
    if bucket == NEW_BUCKET_COUNT {
      NoneHeld(s.newTable, id);
      assert s.newTable - {} == s.newTable;
    } else {
      hide ReferencesFrom, SweepOne;
      SweepOneStep(h, s, id, bucket);
      SweepUnlists(h, SweepOne(h, s, id, bucket), id, bucket + 1);
    }
  }

  lemma UnlistedMidway(h: Hashing, s: State, id: int, limbo: set<int>, extra: int)
    requires Midway(h, s, limbo, extra) && id in s.info && !s.info[id].inTried
    ensures Midway(h, Unlisted(s, id), limbo + {id}, extra)
  {
    hide IndexOk, TriedSlot, SlotIn, TriedIds, NewIds;
    var r := Unlisted(s, id);
    assert EntryOk(h, s, id, id in limbo);
    NoneHeld(r.newTable, id);
    assert forall x :: x != id ==> Holding(r.newTable, x) == Holding(s.newTable, x);
    hide Holding;
    EditedIndex(s, r, id);
    CountsSame(s.info, id, r.info[id]);
    NewTableEdited(h, s, r, id);
    TriedTableFrame(h, s, r);
    EditedEntries(h, s, r, id, limbo, limbo + {id});
  }

  /** Take an entry out of the tried table. */
  function Demoted(s: State, slot: Slot): State
    requires slot in s.triedTable && s.triedTable[slot] in s.info
  {
    var id := s.triedTable[slot];
    s.(triedTable := s.triedTable - {slot}, info := s.info[id := s.info[id].(inTried := false)], nTried := s.nTried - 1)
  }

  lemma DemotedMidway(h: Hashing, s: State, slot: Slot, limbo: set<int>, extra: int)
    requires Midway(h, s, limbo, extra) && slot in s.triedTable
    ensures var id := s.triedTable[slot];
            id in s.info && s.info[id].inTried && id !in limbo && Midway(h, Demoted(s, slot), limbo + {id}, extra + 1)
  {
    hide IndexOk, TriedSlot, SlotIn, TriedIds, NewIds;
    var id := s.triedTable[slot];
    var r := Demoted(s, slot);
    assert EntryOk(h, s, id, id in limbo);
    NoneHeld(s.newTable, id);
    hide Holding;
    EditedIndex(s, r, id);
    CountsFlip(s.info, id, r.info[id]);
    NewTableEdited(h, s, r, id);
    TriedTableDemoted(h, s, slot);
    EditedEntries(h, s, r, id, limbo, limbo + {id});
  }

  lemma TriedTableDemoted(h: Hashing, s: State, slot: Slot)
    requires TriedTableOk(h, s) && slot in s.triedTable
    ensures s.triedTable[slot] in s.info && TriedTableOk(h, Demoted(s, slot))
  {
    hide TriedSlot;
    var id, r := s.triedTable[slot], Demoted(s, slot);
    forall x | x in r.triedTable ensures r.triedTable[x] != id {
      assert x in s.triedTable && x != slot;
    }
    TriedTableFrame(h, s, r);
  }

  /** Put an entry into the tried table. */
  function Promoted(h: Hashing, s: State, id: int): State
    requires id in s.info
  {
    s.(triedTable := s.triedTable[TriedSlot(h, s.key, s.info[id].service) := id],
       info := s.info[id := s.info[id].(inTried := true)], nTried := s.nTried + 1)
  }

  lemma PromotedMidway(h: Hashing, s: State, id: int, limbo: set<int>, extra: int)
    requires Midway(h, s, limbo, extra) && id in limbo
    requires TriedSlot(h, s.key, s.info[id].service) !in s.triedTable
    ensures Midway(h, Promoted(h, s, id), limbo - {id}, extra - 1)
  {
    hide IndexOk, TriedSlot, SlotIn, TriedIds, NewIds;
    var r := Promoted(h, s, id);
    assert EntryOk(h, s, id, true);
    NoneHeld(s.newTable, id);
    hide Holding;
    EditedIndex(s, r, id);
    CountsFlip(s.info, id, r.info[id]);
    assert NewTableOk(h, r) by { NewTableFrame(h, s, r); }
    assert TriedTableOk(h, r);
    EditedEntries(h, s, r, id, limbo, limbo - {id});
  }
}
