/** Adding addresses, handing them out, and the invariant over every run (`Add_`, `GetAddr_`; src/addrman.cpp). */
module AddrManAdd {
  import opened Common
  import opened AddrMan
  import opened AddrManSteps
  import opened AddrManOps

  const HORIZON_DAYS: int := 30
  const RETRIES: int := 3
  const MAX_FAILURES: int := 10
  const MIN_FAIL_DAYS: int := 7
  const GETADDR_MAX_PCT: int := 23
  const GETADDR_MAX: int := 2500

  /** `CAddrInfo::IsTerrible`. */
  predicate IsTerrible(i: Info, now: int) {
    !(i.lastTry != 0 && i.lastTry >= now - 60) &&
    (|| i.time > now + 10 * 60
     || i.time == 0 || now - i.time > HORIZON_DAYS * 24 * 60 * 60
     || (i.lastSuccess == 0 && i.attempts >= RETRIES)
     || (now - i.lastSuccess > MIN_FAIL_DAYS * 24 * 60 * 60 && i.attempts >= MAX_FAILURES))
  }

  /** What hearing about a known address again does to its entry. */
  function Refreshed(i: Info, a: Address, penalty: int, now: int): Info {
    var online := now - a.time < 24 * 60 * 60;
    var interval := if online then 60 * 60 else 24 * 60 * 60;
    var time := if a.time != 0 && (i.time == 0 || i.time < a.time - interval - penalty) then Max(0, a.time - penalty) else i.time;
    i.(time := time, services := i.services + a.services)
  }

  /** Every reference an entry already has makes another one twice as hard to get. */
  function Odds(refCount: int): int {
    Pow2(Max(refCount, 0))
  }

  /** May an entry with this much information gain another reference? The draw decides with odds 1 in 2^refCount. */
  predicate Eligible(i: Info, a: Address, draw: nat) {
    && a.time != 0 && (i.time == 0 || a.time > i.time)
    && !i.inTried
    && i.refCount != NEW_BUCKETS_PER_ADDRESS
    && (Odds(i.refCount) > 1 ==> draw % Odds(i.refCount) == 0)
  }

  /** May entry `id` take a slot? Free slots, bad entries, and entries with references to spare give way. */
  predicate GivesWay(s: State, slot: Slot, id: int, now: int)
    requires id in s.info
  {
    slot !in s.newTable ||
    (s.newTable[slot] in s.info &&
     (IsTerrible(s.info[s.newTable[slot]], now) || (s.info[s.newTable[slot]].refCount > 1 && s.info[id].refCount == 0)))
  }

  /** A slot can be cleared without losing an entry that does not hold it. */
  lemma ClearedHas(h: Hashing, s: State, slot: Slot, id: int, limbo: set<int>, extra: int)
    requires Midway(h, s, limbo, extra) && id in s.info && !(slot in s.newTable && s.newTable[slot] == id)
    ensures IndexOk(s) && (slot in s.newTable ==> s.newTable[slot] in s.info) && id in Cleared(s, slot).info
  {
    hide IndexOk, NewTableOk, TriedTableOk, EntriesOk, CountsOk, Cleared, Holding;
    ClearedMidway(h, s, slot, limbo, extra);
    assert id !in Lost(s, slot);
  }

  /** The second half of `Add_`: give entry `id` a reference in the bucket its source selects, or drop it. */
  ghost function Listed(h: Hashing, s: State, id: int, source: NetAddr, now: int, limbo: set<int>, extra: int): State
    requires Midway(h, s, limbo, extra) && id in s.info && !s.info[id].inTried && limbo <= {id}
  {
    var slot := NewSlot(h, s.key, s.info[id].service, source);
    if slot in s.newTable && s.newTable[slot] == id then s
    else if GivesWay(s, slot, id, now) then
      ClearedHas(h, s, slot, id, limbo, extra);
      Referenced(Cleared(s, slot), slot, id)
    else if s.info[id].refCount == 0 then Deleted(s, id)
    else s
  }

  lemma ListedSettled(h: Hashing, s: State, id: int, source: NetAddr, now: int, limbo: set<int>)
    requires Midway(h, s, limbo, 0) && id in s.info && !s.info[id].inTried && limbo <= {id}
    requires s.info[id].refCount < NEW_BUCKETS_PER_ADDRESS
    ensures Settled(h, Listed(h, s, id, source, now, limbo, 0))
  {
    hide IndexOk, NewTableOk, TriedTableOk, CountsOk, Cleared, Deleted, NewSlot, TriedSlot, SlotIn;
    var slot := NewSlot(h, s.key, s.info[id].service, source);
    assert EntryOk(h, s, id, id in limbo);
    assert limbo == {id} || limbo == {} by { OneOrNone(limbo, id); }
    ClearedMidway(h, s, slot, limbo, 0);
    if slot in s.newTable && s.newTable[slot] == id {
      assert limbo == {};
    } else if GivesWay(s, slot, id, now) {
      var c := Cleared(s, slot);
      assert id in c.info && SameEntry(c.info[id], s.info[id]);
      NewSlotShape(h, s.key, s.info[id].service, source);
      ReferencedMidway(h, c, slot, id, limbo, 0);
      assert limbo - {id} == {};
    } else if s.info[id].refCount == 0 {
      assert limbo == {id};
      DeletedMidway(h, s, id, limbo, 0);
      assert limbo - {id} == {};
    }
  }

  lemma OneOrNone(limbo: set<int>, id: int)
    requires limbo <= {id}
    ensures limbo == {id} || limbo == {}
  {
    if id in limbo {
      assert limbo == {id};
    }
  }

  /** The entry `Add_` creates for an unknown address: counted as new, but without a reference yet. */
  function Entered(s: State, a: Address, source: NetAddr, penalty: int): State {
    var c := Created(s, a.(time := Max(0, a.time - penalty)), source);
    c.(nNew := c.nNew + 1)
  }

  lemma EnteredMidway(h: Hashing, s: State, a: Address, source: NetAddr, penalty: int)
    requires Settled(h, s)
    ensures Midway(h, Entered(s, a, source, penalty), {s.idCount}, 0) && s.idCount !in s.info
  {
    hide Midway;
    var b := a.(time := Max(0, a.time - penalty));
    CreatedMidway(h, s, b, source);
    Recount(h, Created(s, b, source), s.nNew + 1, {s.idCount}, 1);
  }

  lemma RefreshedSettled(h: Hashing, s: State, id: int, a: Address, penalty: int, now: int)
    requires Settled(h, s) && id in s.info
    ensures Settled(h, s.(info := s.info[id := Refreshed(s.info[id], a, penalty, now)]))
    ensures s.info[id].refCount <= NEW_BUCKETS_PER_ADDRESS
  {
    assert EntryOk(h, s, id, false);
    hide Midway;
    UpdatedMidway(h, s, id, Refreshed(s.info[id], a, penalty, now), {}, 0);
  }

  /** A known address is heard of again. */
  ghost function Reheard(h: Hashing, s: State, id: int, a: Address, source: NetAddr, penalty: int, now: int, draw: nat): State
    requires Settled(h, s) && id in s.info
  {
    RefreshedSettled(h, s, id, a, penalty, now);
    var t := s.(info := s.info[id := Refreshed(s.info[id], a, penalty, now)]);
    if Eligible(t.info[id], a, draw) then Listed(h, t, id, source, now, {}, 0) else t
  }

  /** `Add_`. */
  ghost function Added(h: Hashing, s: State, a: Address, source: NetAddr, penalty: int, now: int, draw: nat): (State, bool)
    requires Settled(h, s)
  {
    var ip := a.service.ip;
    if !h.routable(ip) then (s, false)
    else if ip in s.addr && s.addr[ip] in s.info then (Reheard(h, s, s.addr[ip], a, source, penalty, now, draw), false)
    else
      EnteredMidway(h, s, a, source, penalty);
      (Listed(h, Entered(s, a, source, penalty), s.idCount, source, now, {s.idCount}, 0), true)
  }

  /** The entries that go when entry `id` is listed. */
  function ListedLost(h: Hashing, s: State, id: int, source: NetAddr, now: int): set<int>
    requires id in s.info
  {
    var slot := NewSlot(h, s.key, s.info[id].service, source);
    if slot in s.newTable && s.newTable[slot] == id then {}
    else if GivesWay(s, slot, id, now) then Lost(s, slot)
    else if s.info[id].refCount == 0 then {id}
    else {}
  }

  lemma ListedKeeps(h: Hashing, s: State, id: int, source: NetAddr, now: int, limbo: set<int>)
    requires Midway(h, s, limbo, 0) && id in s.info && !s.info[id].inTried && limbo <= {id}
    ensures var r, lost := Listed(h, s, id, source, now, limbo, 0), ListedLost(h, s, id, source, now);
            && EntriesKept(s, r, lost, id) && r.addr == s.addr - Ips(s, lost) && r.key == s.key
            && (id in r.info ==> !r.info[id].inTried)
  {
    hide Midway, Cleared, Deleted, NewSlot, GivesWay, EntriesKept, Holding, Ips, Lost;
    var slot := NewSlot(h, s.key, s.info[id].service, source);
    if slot in s.newTable && s.newTable[slot] == id {
      KeptSame(s, id);
    } else if GivesWay(s, slot, id, now) {
      PutKeeps(h, s, id, slot, limbo);
    } else if s.info[id].refCount == 0 {
      DropKeeps(h, s, id, limbo);
    } else {
      KeptSame(s, id);
    }
  }

  lemma KeptSame(s: State, id: int)
    ensures EntriesKept(s, s, {}, id) && s.addr == s.addr - Ips(s, {})
  {
  }

  lemma PutKeeps(h: Hashing, s: State, id: int, slot: Slot, limbo: set<int>)
    requires Midway(h, s, limbo, 0) && id in s.info && !s.info[id].inTried && limbo <= {id}
    requires !(slot in s.newTable && s.newTable[slot] == id)
    ensures IndexOk(s) && (slot in s.newTable ==> s.newTable[slot] in s.info) && id in Cleared(s, slot).info
    ensures var r := Referenced(Cleared(s, slot), slot, id);
            && EntriesKept(s, r, Lost(s, slot), id) && r.addr == s.addr - Ips(s, Lost(s, slot)) && r.key == s.key
            && !r.info[id].inTried
  {
    hide IndexOk, NewTableOk, TriedTableOk, EntriesOk, CountsOk, Cleared, Holding, Ips;
    ClearedMidway(h, s, slot, limbo, 0);
    var c := Cleared(s, slot);
    assert id !in Lost(s, slot) && id in c.info;
    assert Referenced(c, slot, id).info.Keys == c.info.Keys;
    assert SameEntry(c.info[id], s.info[id]);
  }

  lemma DropKeeps(h: Hashing, s: State, id: int, limbo: set<int>)
    requires Midway(h, s, limbo, 0) && id in s.info && !s.info[id].inTried && limbo <= {id} && s.info[id].refCount == 0
    ensures IndexOk(s)
    ensures var r := Deleted(s, id);
            EntriesKept(s, r, {id}, id) && r.addr == s.addr - Ips(s, {id}) && r.key == s.key && id !in r.info
  {
    hide IndexOk, NewTableOk, TriedTableOk, CountsOk, Deleted, Holding;
    assert EntryOk(h, s, id, id in limbo);
    OneOrNone(limbo, id);
    DeletedMidway(h, s, id, limbo, 0);
    DeletedRest(s, id);
    assert Ips(s, {id}) == {s.info[id].service.ip};
  }

  /** Losing entries, and making none tried, keeps the times. */
  lemma TimesFrame(s: State, r: State, lost: set<int>, id: int)
    requires TimesOk(s) && EntriesKept(s, r, lost, id) && (id in r.info ==> !r.info[id].inTried)
    ensures TimesOk(r)
  {
    forall x | x in r.info ensures TimeOk(r.info[x]) {
      assert TimeOk(s.info[x]);
    }
  }

  /** Listing an entry keeps the address index and the times. */
  lemma ListedInv(h: Hashing, s: State, id: int, source: NetAddr, now: int, limbo: set<int>)
    requires Midway(h, s, limbo, 0) && id in s.info && !s.info[id].inTried && limbo <= {id}
    requires s.info[id].refCount < NEW_BUCKETS_PER_ADDRESS && AddrOk(s)
    ensures Steady(h, Listed(h, s, id, source, now, limbo, 0))
    ensures TimesOk(s) ==> Inv(h, Listed(h, s, id, source, now, limbo, 0))
  {
    hide Midway, Listed, ListedLost, AddrOk, TimesOk, EntriesKept;
    var r, lost := Listed(h, s, id, source, now, limbo, 0), ListedLost(h, s, id, source, now);
    ListedSettled(h, s, id, source, now, limbo);
    ListedKeeps(h, s, id, source, now, limbo);
    AddrFrame(s, r, lost, id);
    if TimesOk(s) {
      TimesFrame(s, r, lost, id);
    }
  }

  lemma RefreshedKeeps(s: State, id: int, a: Address, penalty: int, now: int)
    requires AddrOk(s) && id in s.info
    ensures var t := s.(info := s.info[id := Refreshed(s.info[id], a, penalty, now)]);
            AddrOk(t) && (TimesOk(s) ==> TimesOk(t))
  {
    hide AddrOk;
    EditedAddr(s, id, Refreshed(s.info[id], a, penalty, now));
    if TimesOk(s) {
      TimesEdited(s, id, Refreshed(s.info[id], a, penalty, now));
    }
  }

  lemma ReheardInv(h: Hashing, s: State, id: int, a: Address, source: NetAddr, penalty: int, now: int, draw: nat)
    requires Steady(h, s) && id in s.info
    ensures var r := Reheard(h, s, id, a, source, penalty, now, draw); Steady(h, r) && (TimesOk(s) ==> Inv(h, r))
  {
    hide Midway, Listed, Eligible, AddrOk, TimesOk;
    RefreshedSettled(h, s, id, a, penalty, now);
    RefreshedKeeps(s, id, a, penalty, now);
    var t := s.(info := s.info[id := Refreshed(s.info[id], a, penalty, now)]);
    if Eligible(t.info[id], a, draw) {
      EligibleHasRoom(t.info[id], a, draw);
      ListedInv(h, t, id, source, now, {});
    }
  }

  lemma EnteredKeeps(h: Hashing, s: State, a: Address, source: NetAddr, penalty: int)
    requires Steady(h, s) && a.service.ip !in s.addr
    ensures var e := Entered(s, a, source, penalty); AddrOk(e) && (TimesOk(s) ==> TimesOk(e))
  {
    hide NewTableOk, TriedTableOk, EntriesOk, CountsOk;
    var e, id := Entered(s, a, source, penalty), s.idCount;
    assert id !in s.info;
    forall x | x in e.info ensures e.info[x].service.ip in e.addr && e.addr[e.info[x].service.ip] == x {
      assert x != id ==> x in s.info && s.info[x].service.ip in s.addr;
    }
  }

  /** Adding keeps the invariant; without the times it keeps the rest. */
  lemma AddedInv(h: Hashing, s: State, a: Address, source: NetAddr, penalty: int, now: int, draw: nat)
    requires Steady(h, s)
    ensures Steady(h, Added(h, s, a, source, penalty, now, draw).0)
    ensures TimesOk(s) ==> Inv(h, Added(h, s, a, source, penalty, now, draw).0)
  {
    hide Midway, Listed, Reheard, TimesOk, EntriesOk;
    var ip := a.service.ip;
    if h.routable(ip) {
      if ip in s.addr {
        ReheardInv(h, s, s.addr[ip], a, source, penalty, now, draw);
      } else {
        EnteredMidway(h, s, a, source, penalty);
        EnteredKeeps(h, s, a, source, penalty);
        ListedInv(h, Entered(s, a, source, penalty), s.idCount, source, now, {s.idCount});
      }
    }
  }

  /** What the entries other than `id` say once `id` was put into a slot: the one it took the place of has lost a reference. */
  ghost predicate OthersSay(s: State, r: State, slot: Slot, id: int) {
    forall x :: x in r.info && x != id ==>
      && x in s.info
      && r.info[x] == s.info[x].(randomPos := r.info[x].randomPos,
                                 refCount := s.info[x].refCount - if slot in s.newTable && s.newTable[slot] == x then 1 else 0)
  }

  /** A slot that is free, or held by an entry that is terrible. */
  predicate FreeOrTerrible(s: State, slot: Slot, now: int) {
    slot !in s.newTable || (s.newTable[slot] in s.info && IsTerrible(s.info[s.newTable[slot]], now))
  }

  /** Does a known address gain a reference? It was announced with a later time than `time`, is not tried, has room, and is in luck. */
  predicate Gains(s: State, id: int, slot: Slot, a: Address, time: nat, now: int, draw: nat)
    requires id in s.info
  {
    && a.time != 0 && a.time > time
    && !s.info[id].inTried && 0 <= s.info[id].refCount < 8 && draw % Pow2(s.info[id].refCount) == 0
    && !(slot in s.newTable && s.newTable[slot] == id) && FreeOrTerrible(s, slot, now)
  }

  /**
   * A known address keeps its source, its last success and its tries; its services are joined with those announced, and
   * its time is moved forward if it was unknown or is more than an hour behind (a day, if the announced one is itself
   * older than a day), the penalty not counted. It gains at most one reference, in the slot its new source selects, and
   * exactly when `Gains` says so; the price is at most the entry whose last reference was there.
   */
  lemma ReheardEffect(h: Hashing, s: State, id: int, a: Address, source: NetAddr, penalty: int, now: int, draw: nat)
    requires Settled(h, s) && id in s.info
    ensures var r, slot := Reheard(h, s, id, a, source, penalty, now, draw), NewSlot(h, s.key, s.info[id].service, source);
            && r.key == s.key && r.triedTable == s.triedTable && r.nTried == s.nTried && r.idCount == s.idCount && id in r.info
            && var i, time := s.info[id], r.info[id].time;
            && (time == if a.time != 0 && (i.time == 0 || i.time + penalty + (if now - a.time < 86400 then 3600 else 86400) < a.time)
                        then Max(0, a.time - penalty) else i.time)
            && (if Gains(s, id, slot, a, time, now, draw) then
                  && r.newTable == s.newTable[slot := id] && OthersSay(s, r, slot, id)
                  && r.info.Keys == s.info.Keys - Lost(s, slot) && r.addr == s.addr - Ips(s, Lost(s, slot))
                  && r.info[id] == i.(time := time, services := i.services + a.services, refCount := i.refCount + 1,
                                      randomPos := r.info[id].randomPos)
                else
                  && r.newTable == s.newTable && r.addr == s.addr && r.info.Keys == s.info.Keys
                  && r.info == s.info[id := i.(time := time, services := i.services + a.services)])
  {
    hide Midway, NewSlot, Holding, OthersSay;
    RefreshedSettled(h, s, id, a, penalty, now);
    var i := Refreshed(s.info[id], a, penalty, now);
    var t, slot := s.(info := s.info[id := i]), NewSlot(h, s.key, s.info[id].service, source);
    RefreshedPlace(s.info[id], a, penalty, now);
    RefreshedSays(s.info[id], a, penalty, now);
    EligibleExactly(h, s, id, i, a, draw);
    hide Refreshed, Eligible;
    assert t.info.Keys == s.info.Keys;
    if Eligible(i, a, draw) {
      EligibleHasRoom(i, a, draw);
      ListedAgain(h, s, t, id, source, now);
    }
  }

  lemma RefreshedSays(i: Info, a: Address, penalty: int, now: int)
    ensures var r := Refreshed(i, a, penalty, now);
            && r == i.(time := r.time, services := i.services + a.services)
            && (r.time == if a.time != 0 && (i.time == 0 || i.time + penalty + (if now - a.time < 86400 then 3600 else 86400) < a.time)
                          then Max(0, a.time - penalty) else i.time)
  {
  }

  lemma EligibleExactly(h: Hashing, s: State, id: int, i: Info, a: Address, draw: nat)
    requires Settled(h, s) && id in s.info && SamePlace(i, s.info[id])
    ensures 0 <= s.info[id].refCount <= 8
    ensures Eligible(i, a, draw) <==>
      (a.time != 0 && a.time > i.time && !s.info[id].inTried && s.info[id].refCount < 8 && draw % Pow2(s.info[id].refCount) == 0)
  {
    assert EntryOk(h, s, id, false);
    hide Midway, EntryOk;
    DrawOdds(draw, s.info[id].refCount);
  }

  lemma DrawOdds(draw: nat, n: nat)
    ensures Pow2(n) == 1 ==> draw % Pow2(n) == 0
  {
  }

  lemma RefreshedPlace(i: Info, a: Address, penalty: int, now: int)
    ensures SamePlace(Refreshed(i, a, penalty, now), i)
  {
  }

  lemma ListedAgain(h: Hashing, s: State, t: State, id: int, source: NetAddr, now: int)
    requires Settled(h, s) && Settled(h, t) && id in s.info && id in t.info && t == s.(info := t.info) && t.info == s.info[id := t.info[id]]
    requires SamePlace(t.info[id], s.info[id]) && !t.info[id].inTried && t.info[id].refCount < NEW_BUCKETS_PER_ADDRESS
    ensures var r, slot := Listed(h, t, id, source, now, {}, 0), NewSlot(h, s.key, s.info[id].service, source);
            && r.key == s.key && r.triedTable == s.triedTable && r.nTried == s.nTried && r.idCount == s.idCount && id in r.info
            && (if !(slot in s.newTable && s.newTable[slot] == id) && FreeOrTerrible(s, slot, now) then
                  && r.newTable == s.newTable[slot := id] && OthersSay(s, r, slot, id)
                  && r.info.Keys == s.info.Keys - Lost(s, slot) && r.addr == s.addr - Ips(s, Lost(s, slot))
                  && r.info[id] == t.info[id].(refCount := s.info[id].refCount + 1, randomPos := r.info[id].randomPos)
                else r == t)
  {
    hide IndexOk, NewTableOk, TriedTableOk, CountsOk, NewSlot, Holding, Cleared, Deleted, Ips, IsTerrible, OthersSay;
    var slot := NewSlot(h, s.key, s.info[id].service, source);
    assert t.info.Keys == s.info.Keys;
    assert EntryOk(h, t, id, false);
    hide EntriesOk;
    assert Ips(t, Lost(s, slot)) == Ips(s, Lost(s, slot)) by { IpsSame(s, t, id, Lost(s, slot)); }
    ClearedMidway(h, t, slot, {}, 0);
    if !(slot in t.newTable && t.newTable[slot] == id) && GivesWay(t, slot, id, now) {
      var c := Cleared(t, slot);
      assert id !in Lost(t, slot) && id in c.info;
      PutBack(s.newTable, slot, id);
      assert Referenced(c, slot, id).info.Keys == c.info.Keys;
      AgainSays(s, t, c, slot, id);
    }
  }

  lemma AgainSays(s: State, t: State, c: State, slot: Slot, id: int)
    requires id in s.info && id in t.info && id in c.info && t.newTable == s.newTable && t.info == s.info[id := t.info[id]]
    requires !(slot in s.newTable && s.newTable[slot] == id)
    requires forall x :: x in c.info ==>
      && x in t.info
      && SameEntry(c.info[x], t.info[x].(refCount := t.info[x].refCount - (if slot in t.newTable && t.newTable[slot] == x then 1 else 0)))
    ensures OthersSay(s, Referenced(c, slot, id), slot, id)
    ensures var r := Referenced(c, slot, id);
            r.info[id] == t.info[id].(refCount := t.info[id].refCount + 1, randomPos := r.info[id].randomPos)
  {
  }

  lemma IpsSame(s: State, t: State, id: int, ids: set<int>)
    requires id in s.info && id in t.info && t.info == s.info[id := t.info[id]] && t.info[id].service == s.info[id].service
    ensures Ips(t, ids) == Ips(s, ids)
  {
    assert t.info.Keys == s.info.Keys + {id};
    assert forall x :: x in s.info ==> t.info[x].service.ip == s.info[x].service.ip;
  }

  lemma EligibleHasRoom(i: Info, a: Address, draw: nat)
    requires Eligible(i, a, draw) && i.refCount <= NEW_BUCKETS_PER_ADDRESS
    ensures !i.inTried && i.refCount < NEW_BUCKETS_PER_ADDRESS
  {
  }

  /** A slot that an unknown address can take: free, or held by an entry that is terrible or has other references. */
  predicate RoomAt(s: State, slot: Slot, now: int) {
    slot !in s.newTable ||
    (s.newTable[slot] in s.info && (IsTerrible(s.info[s.newTable[slot]], now) || s.info[s.newTable[slot]].refCount > 1))
  }

  lemma RoomExactly(h: Hashing, s: State, a: Address, source: NetAddr, penalty: int, slot: Slot, now: int)
    requires Steady(h, s)
    ensures GivesWay(Entered(s, a, source, penalty), slot, s.idCount, now) <==> RoomAt(s, slot, now)
  {
    hide IsTerrible;
    NotListed(h, s, slot);
    hide Midway, AddrOk;
  }

  /**
   * An unknown address either finds room, at the price of at most one entry, or leaves no trace but a used-up id. What is
   * entered is what was announced, by whom it was announced, at the announced time less the penalty.
   */
  lemma AddedEffect(h: Hashing, s: State, a: Address, source: NetAddr, penalty: int, now: int, draw: nat)
    requires Steady(h, s) && h.routable(a.service.ip) && a.service.ip !in s.addr
    ensures var r, slot := Added(h, s, a, source, penalty, now, draw), NewSlot(h, s.key, a.service, source);
            && r.1 && r.0.key == s.key
            && (RoomAt(s, slot, now) ==>
                  && r.0.newTable == s.newTable[slot := s.idCount] && r.0.triedTable == s.triedTable
                  && r.0.info.Keys == s.info.Keys - Lost(s, slot) + {s.idCount}
                  && r.0.addr == (s.addr - Ips(s, Lost(s, slot)))[a.service.ip := s.idCount]
                  && OthersSay(s, r.0, slot, s.idCount)
                  && r.0.info[s.idCount] == Info(service := a.service, services := a.services, time := Max(0, a.time - penalty),
                                                 source := source, lastSuccess := 0, lastTry := 0, attempts := 0, refCount := 1,
                                                 inTried := false, randomPos := r.0.info[s.idCount].randomPos))
            && (!RoomAt(s, slot, now) ==> r.0 == s.(idCount := s.idCount + 1))
  {
    hide Midway, NewSlot, Holding, GivesWay, RoomAt, Listed, OthersSay;
    EnteredMidway(h, s, a, source, penalty);
    var e, id, slot := Entered(s, a, source, penalty), s.idCount, NewSlot(h, s.key, a.service, source);
    RoomExactly(h, s, a, source, penalty, slot, now);
    if GivesWay(e, slot, id, now) {
      RoomFound(h, s, a, source, penalty, now);
    } else {
      NoRoom(h, s, a, source, penalty, now);
    }
  }

  lemma RoomFound(h: Hashing, s: State, a: Address, source: NetAddr, penalty: int, now: int)
    requires Steady(h, s) && a.service.ip !in s.addr
    requires GivesWay(Entered(s, a, source, penalty), NewSlot(h, s.key, a.service, source), s.idCount, now)
    ensures var e, slot := Entered(s, a, source, penalty), NewSlot(h, s.key, a.service, source);
            && Midway(h, e, {s.idCount}, 0)
            && var r := Listed(h, e, s.idCount, source, now, {s.idCount}, 0);
            && r.key == s.key && r.newTable == s.newTable[slot := s.idCount] && r.triedTable == s.triedTable
            && r.info.Keys == s.info.Keys - Lost(s, slot) + {s.idCount}
            && r.addr == (s.addr - Ips(s, Lost(s, slot)))[a.service.ip := s.idCount]
            && OthersSay(s, r, slot, s.idCount)
            && r.info[s.idCount] == e.info[s.idCount].(refCount := 1, randomPos := r.info[s.idCount].randomPos)
  {
    hide IndexOk, NewTableOk, TriedTableOk, EntriesOk, CountsOk, NewSlot, Holding, GivesWay, Cleared, Deleted, OthersSay;
    EnteredMidway(h, s, a, source, penalty);
    var e, id, slot := Entered(s, a, source, penalty), s.idCount, NewSlot(h, s.key, a.service, source);
    NotListed(h, s, slot);
    ClearedMidway(h, e, slot, {id}, 0);
    var c := Cleared(e, slot);
    EnteredLost(h, s, a, source, penalty, slot);
    PutBack(s.newTable, slot, id);
    assert Referenced(c, slot, id).info.Keys == c.info.Keys;
    NewSays(s, e, c, slot, id);
  }

  lemma NewSays(s: State, e: State, c: State, slot: Slot, id: int)
    requires id !in s.info && id in e.info && id in c.info && e.newTable == s.newTable && e.info == s.info[id := e.info[id]]
    requires !(slot in s.newTable && s.newTable[slot] == id)
    requires forall x :: x in c.info ==>
      && x in e.info
      && SameEntry(c.info[x], e.info[x].(refCount := e.info[x].refCount - (if slot in e.newTable && e.newTable[slot] == x then 1 else 0)))
    ensures OthersSay(s, Referenced(c, slot, id), slot, id)
    ensures var r := Referenced(c, slot, id);
            r.info[id] == e.info[id].(refCount := e.info[id].refCount + 1, randomPos := r.info[id].randomPos)
  {
  }

  lemma NoRoom(h: Hashing, s: State, a: Address, source: NetAddr, penalty: int, now: int)
    requires Steady(h, s) && a.service.ip !in s.addr
    requires !GivesWay(Entered(s, a, source, penalty), NewSlot(h, s.key, a.service, source), s.idCount, now)
    ensures var e := Entered(s, a, source, penalty);
            Midway(h, e, {s.idCount}, 0) && Listed(h, e, s.idCount, source, now, {s.idCount}, 0) == s.(idCount := s.idCount + 1)
  {
    hide IndexOk, NewTableOk, TriedTableOk, EntriesOk, CountsOk, NewSlot, Holding, GivesWay, Cleared, Deleted;
    EnteredMidway(h, s, a, source, penalty);
    NotListed(h, s, NewSlot(h, s.key, a.service, source));
    DeletedAgain(h, s, a, source, penalty);
  }

  lemma MidwayIndex(h: Hashing, s: State, limbo: set<int>, extra: int)
    requires Midway(h, s, limbo, extra)
    ensures IndexOk(s)
  {
  }

  lemma NotListed(h: Hashing, s: State, slot: Slot)
    requires Steady(h, s)
    ensures slot in s.newTable ==> s.newTable[slot] in s.info && s.newTable[slot] != s.idCount
  {
  }

  lemma EnteredLost(h: Hashing, s: State, a: Address, source: NetAddr, penalty: int, slot: Slot)
    requires Steady(h, s) && a.service.ip !in s.addr
    ensures var e := Entered(s, a, source, penalty);
            && Lost(e, slot) == Lost(s, slot) && s.idCount !in Lost(s, slot)
            && e.info.Keys == s.info.Keys + {s.idCount}
            && e.addr - Ips(e, Lost(s, slot)) == (s.addr - Ips(s, Lost(s, slot)))[a.service.ip := s.idCount]
  {
    hide Holding, NewTableOk, TriedTableOk, EntriesOk, CountsOk;
    var e := Entered(s, a, source, penalty);
    NotListed(h, s, slot);
    assert Ips(e, Lost(s, slot)) == Ips(s, Lost(s, slot));
    assert a.service.ip !in Ips(s, Lost(s, slot));
  }

  /** Deleting what was just created. */
  lemma DeletedAgain(h: Hashing, s: State, a: Address, source: NetAddr, penalty: int)
    requires Steady(h, s) && a.service.ip !in s.addr
    ensures var e := Entered(s, a, source, penalty);
            IndexOk(e) && Deleted(e, s.idCount) == s.(idCount := s.idCount + 1)
  {
    hide NewTableOk, TriedTableOk, EntriesOk, CountsOk, AddrOk;
    var e, id := Entered(s, a, source, penalty), s.idCount;
    EnteredMidway(h, s, a, source, penalty);
    hide IndexOk;
    assert e.random == s.random + [id] && e.info[id].randomPos == |s.random|;
    assert Swapped(e, |s.random|, |s.random|) == e;
    assert e.random[..|e.random| - 1] == s.random;
    assert e.addr - {a.service.ip} == s.addr;
    assert e.info - {id} == s.info;
  }

  // ---------------------------------------------------------------- handing out addresses

  /** The loop of `GetAddr_`: shuffle the random order from the front, collecting what is not terrible. */
  ghost function Picked(s: State, n: nat, draws: nat -> nat, nodes: int, now: int, acc: seq<Address>): (State, seq<Address>)
    requires IndexOk(s) && n <= |s.random|
    decreases |s.random| - n
  {
    if n == |s.random| || |acc| >= nodes then (s, acc)
    else
      var pos := draws(n) % (|s.random| - n) + n;
      var t := Swapped(s, n, pos);
      SwappedKeeps(s, n, pos);
      var i := t.info[t.random[n]];
      Picked(t, n + 1, draws, nodes, now, if IsTerrible(i, now) then acc else acc + [AddressOf(i)])
  }

  function AddressOf(i: Info): Address {
    Address(i.service, i.services, i.time)
  }

  /** The addresses of the first `n` entries of the random order that are not terrible. */
  ghost function Sample(s: State, n: nat, now: int): seq<Address>
    requires IndexOk(s) && n <= |s.random|
  {
    if n == 0 then []
    else
      var i := s.info[s.random[n - 1]];
      Sample(s, n - 1, now) + if IsTerrible(i, now) then [] else [AddressOf(i)]
  }

  function NodeLimit(size: nat): int {
    var n := GETADDR_MAX_PCT * size / 100;
    if n > GETADDR_MAX then GETADDR_MAX else n
  }

  /** The same entries in a different random order. */
  predicate OnlyShuffled(s: State, r: State) {
    && r == s.(info := r.info, random := r.random) && |r.random| == |s.random|
    && r.info.Keys == s.info.Keys && forall id :: id in s.info ==> SameEntry(r.info[id], s.info[id])
  }

  lemma ShuffledTwice(s: State, t: State, r: State)
    requires OnlyShuffled(s, t) && OnlyShuffled(t, r)
    ensures OnlyShuffled(s, r)
  {
    forall id | id in s.info ensures SameEntry(r.info[id], s.info[id]) {
      assert id in t.info && SameEntry(t.info[id], s.info[id]) && SameEntry(r.info[id], t.info[id]);
    }
  }

  lemma {:induction false} SampleSame(s: State, t: State, n: nat, now: int)
    requires IndexOk(s) && IndexOk(t) && n <= |s.random| && OnlyShuffled(s, t)
    requires forall i :: 0 <= i < n ==> t.random[i] == s.random[i]
    ensures Sample(t, n, now) == Sample(s, n, now)
  {
    if n > 0 {
      SampleSame(s, t, n - 1, now);
      assert SameEntry(t.info[s.random[n - 1]], s.info[s.random[n - 1]]);
    }
  }

  lemma PickOne(h: Hashing, s: State, n: nat, pos: int, now: int)
    requires Settled(h, s) && n <= pos < |s.random|
    ensures var t := Swapped(s, n, pos);
            && Settled(h, t) && OnlyShuffled(s, t) && Sample(t, n, now) == Sample(s, n, now)
  {
    hide NewTableOk, TriedTableOk, EntriesOk, CountsOk;
    SwappedKeeps(s, n, pos);
    SwappedMidway(h, s, n, pos, {}, 0);
    SampleSame(s, Swapped(s, n, pos), n, now);
  }

  /** What is handed out is read off the front of the new random order; it stops at the limit or at the end. */
  lemma {:induction false} PickedIsSample(h: Hashing, s: State, n: nat, draws: nat -> nat, nodes: int, now: int) returns (k: nat)
    requires Settled(h, s) && n <= |s.random| && |Sample(s, n, now)| <= nodes
    ensures var (r, out) := Picked(s, n, draws, nodes, now, Sample(s, n, now));
            && Settled(h, r) && OnlyShuffled(s, r)
            && k <= |r.random| && out == Sample(r, k, now) && |out| <= nodes
            && (k == |r.random| || |out| == nodes)
    decreases |s.random| - n
  {
    hide IndexOk, NewTableOk, TriedTableOk, EntriesOk, CountsOk, Swapped, Sample, OnlyShuffled;
    if n == |s.random| || |Sample(s, n, now)| >= nodes {
      k := n;
      ShuffledNot(s);
    } else {
      hide Picked;
      var pos := draws(n) % (|s.random| - n) + n;
      PickOne(h, s, n, pos, now);
      var t := Swapped(s, n, pos);
      PickedStep(h, s, n, draws, nodes, now);
      k := PickedIsSample(h, t, n + 1, draws, nodes, now);
      ShuffledTwice(s, t, Picked(t, n + 1, draws, nodes, now, Sample(t, n + 1, now)).0);
    }
  }

  lemma PickedStep(h: Hashing, s: State, n: nat, draws: nat -> nat, nodes: int, now: int)
    requires Settled(h, s) && n < |s.random| && |Sample(s, n, now)| < nodes
    ensures var t := Swapped(s, n, draws(n) % (|s.random| - n) + n);
            && IndexOk(t) && |t.random| == |s.random| && |Sample(t, n + 1, now)| <= nodes
            && Picked(s, n, draws, nodes, now, Sample(s, n, now)) == Picked(t, n + 1, draws, nodes, now, Sample(t, n + 1, now))
  {
    hide IndexOk, NewTableOk, TriedTableOk, EntriesOk, CountsOk, Swapped, IsTerrible;
    var pos := draws(n) % (|s.random| - n) + n;
    PickOne(h, s, n, pos, now);
    var t := Swapped(s, n, pos);
    RandomIn(t, n);
    assert Sample(s, n, now) + [] == Sample(s, n, now);
  }

  lemma RandomIn(s: State, n: int)
    requires IndexOk(s) && 0 <= n < |s.random|
    ensures s.random[n] in s.info
  {
  }

  lemma ShuffledNot(s: State)
    ensures OnlyShuffled(s, s)
  {
  }

  /** `GetAddr_`. */
  ghost function Given(s: State, draws: nat -> nat, now: int): (State, seq<Address>)
    requires IndexOk(s)
  {
    Picked(s, 0, draws, NodeLimit(|s.random|), now, [])
  }

  /** At most 23 percent and at most 2500 entries are handed out, each once, none of them terrible; fewer only if there are no more. */
  lemma GivenEffect(h: Hashing, s: State, draws: nat -> nat, now: int) returns (k: nat)
    requires Settled(h, s)
    ensures var (r, out) := Given(s, draws, now);
            && Settled(h, r) && OnlyShuffled(s, r)
            && k <= |r.random| && out == Sample(r, k, now)
            && |out| <= NodeLimit(|s.random|) && (k == |r.random| || |out| == NodeLimit(|s.random|))
  {
    hide Picked, IndexOk, OnlyShuffled;
    k := PickedIsSample(h, s, 0, draws, NodeLimit(|s.random|), now);
  }

  // ---------------------------------------------------------------- every run

  datatype Op =
    | Add(a: Address, source: NetAddr, penalty: int, now: int, draw: nat)
    | MarkGood(service: Service, time: int)
    | Attempt(service: Service, time: int)
    | Connect(service: Service, time: int)
    | GetAddr(draws: nat -> nat, now: int)

  ghost function Apply(h: Hashing, s: State, op: Op): State
    requires Settled(h, s)
  {
    match op
    case Add(a, source, penalty, now, draw) => Added(h, s, a, source, penalty, now, draw).0
    case MarkGood(service, time) => Good(h, s, service, time)
    case Attempt(service, time) => Attempted(s, service, time)
    case Connect(service, time) => Connected(s, service, time)
    case GetAddr(draws, now) => Given(s, draws, now).0
  }

  /** Times come from a clock: not negative, and positive for a successful connection. */
  predicate Timely(op: Op) {
    match op
    case MarkGood(_, time) => time > 0
    case Attempt(_, time) => time >= 0
    case _ => true
  }

  lemma ShuffledAddr(s: State, r: State)
    requires OnlyShuffled(s, r)
    ensures AddrOk(s) ==> AddrOk(r)
    ensures TimesOk(s) ==> TimesOk(r)
  {
    assert forall id :: id in r.info ==> id in s.info && SameEntry(r.info[id], s.info[id]);
  }

  lemma GivenSteady(h: Hashing, s: State, draws: nat -> nat, now: int)
    requires Steady(h, s)
    ensures Steady(h, Given(s, draws, now).0) && (TimesOk(s) ==> Inv(h, Given(s, draws, now).0))
  {
    hide NewTableOk, TriedTableOk, EntriesOk, CountsOk, Given, AddrOk, TimesOk, OnlyShuffled;
    var _ := GivenEffect(h, s, draws, now);
    ShuffledAddr(s, Given(s, draws, now).0);
  }

  /** Whatever the times, every operation keeps the invariant apart from the times. */
  lemma ApplySteady(h: Hashing, s: State, op: Op)
    requires Steady(h, s)
    ensures Steady(h, Apply(h, s, op))
  {
    hide Midway, Added, Good, Attempted, Connected, Given, AddrOk, OnlyShuffled;
    match op
    case Add(a, source, penalty, now, draw) => AddedInv(h, s, a, source, penalty, now, draw);
    case MarkGood(service, time) => GoodSteady(h, s, service, time);
    case Attempt(service, time) => MarkedSteady(h, s, service, time);
    case Connect(service, time) => MarkedSteady(h, s, service, time);
    case GetAddr(draws, now) =>
      MidwayIndex(h, s, {}, 0);
      GivenSteady(h, s, draws, now);
  }

  /** With times from a clock every operation keeps all of the invariant. */
  lemma ApplyInv(h: Hashing, s: State, op: Op)
    requires Inv(h, s) && Timely(op)
    ensures Inv(h, Apply(h, s, op))
  {
    hide Midway, Added, Good, Attempted, Connected, Given, AddrOk, TimesOk, OnlyShuffled;
    match op
    case Add(a, source, penalty, now, draw) => AddedInv(h, s, a, source, penalty, now, draw);
    case MarkGood(service, time) => GoodInv(h, s, service, time);
    case Attempt(service, time) => AttemptedInv(h, s, service, time);
    case Connect(service, time) => ConnectedInv(h, s, service, time);
    case GetAddr(draws, now) =>
      MidwayIndex(h, s, {}, 0);
      GivenSteady(h, s, draws, now);
  }

  /** The states of a manager that starts out empty and performs some operations. */
  ghost predicate IsRun(h: Hashing, states: seq<State>, ops: seq<Op>) {
    && |states| == |ops| + 1
    && (exists key :: states[0] == Empty(key))
    && forall k {:trigger ops[k]} :: 0 <= k < |ops| ==>
         (Settled(h, states[k]) ==> states[k + 1] == Apply(h, states[k], ops[k]))
  }

  /** In every state of every run the invariant holds, the part about times as long as the times come from a clock. */
  lemma {:induction false} RunInv(h: Hashing, states: seq<State>, ops: seq<Op>, k: nat)
    requires IsRun(h, states, ops) && k < |states|
    ensures Steady(h, states[k])
    ensures (forall j :: 0 <= j < k ==> Timely(ops[j])) ==> Inv(h, states[k])
    decreases k
  {
    hide Midway, Apply, AddrOk, TimesOk, Timely;
    if k == 0 {
      var key :| states[0] == Empty(key);
      EmptyInv(h, key);
    } else {
      RunInv(h, states, ops, k - 1);
      var op := ops[k - 1];
      ApplySteady(h, states[k - 1], op);
      if forall j :: 0 <= j < k ==> Timely(ops[j]) {
        assert Timely(op);
        ApplyInv(h, states[k - 1], op);
      }
    }
  }
}
