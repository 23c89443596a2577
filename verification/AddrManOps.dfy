/** The operations of the address manager, the invariant over every run, and what each can lose (src/addrman.cpp). */
module AddrManOps {
  import opened Common
  import opened AddrMan
  import opened AddrManSteps

  // ---------------------------------------------------------------- moving an entry to the tried table

  lemma Recount(h: Hashing, s: State, n: int, limbo: set<int>, extra: int)
    requires Midway(h, s, limbo, extra)
    ensures Midway(h, s.(nNew := n), limbo, extra + s.nNew - n)
  {
    hide IndexOk, TriedSlot, SlotIn, TriedIds, NewIds, Holding;
    var r := s.(nNew := n);
    assert IndexOk(r) by { RecountIndex(s, n); }
    forall id | id in r.info ensures EntryOk(h, r, id, id in limbo) {
      EntryFrame(h, s, r, id, id in limbo);
    }
  }

  lemma RecountIndex(s: State, n: int)
    requires IndexOk(s)
    ensures IndexOk(s.(nNew := n))
  {
  }

  lemma NewSlotShape(h: Hashing, key: Key, s: Service, source: NetAddr)
    ensures var u := NewSlot(h, key, s, source); 0 <= u.0 < NEW_BUCKET_COUNT && u == SlotIn(h, key, u.0, s)
  {
  }

  /** Move the occupant of a tried slot back to the new table, into the slot its own source gives it. */
  ghost function Evicted(h: Hashing, s: State, slot: Slot, limbo: set<int>, extra: int): State
    requires Midway(h, s, limbo, extra) && slot in s.triedTable
  {
    DemotedMidway(h, s, slot, limbo, extra);
    var e, d := s.triedTable[slot], Demoted(s, slot);
    var u := NewSlot(h, d.key, d.info[e].service, d.info[e].source);
    ClearedMidway(h, d, u, limbo + {e}, extra + 1);
    var c := Referenced(Cleared(d, u), u, e);
    c.(nNew := c.nNew + 1)
  }

  lemma EvictedMidway(h: Hashing, s: State, slot: Slot, limbo: set<int>, extra: int)
    requires Midway(h, s, limbo, extra) && slot in s.triedTable
    ensures Midway(h, Evicted(h, s, slot, limbo, extra), limbo, extra)
  {
    hide IndexOk, NewTableOk, TriedTableOk, CountsOk, Cleared, TriedSlot, SlotIn, Holding, NewBucket;
    DemotedMidway(h, s, slot, limbo, extra);
    var e, d := s.triedTable[slot], Demoted(s, slot);
    var u := NewSlot(h, d.key, d.info[e].service, d.info[e].source);
    ClearedMidway(h, d, u, limbo + {e}, extra + 1);
    var c := Cleared(d, u);
    assert EntryOk(h, c, e, true);
    assert SameEntry(c.info[e], d.info[e]);
    NewSlotShape(h, d.key, d.info[e].service, d.info[e].source);
    ReferencedMidway(h, c, u, e, limbo + {e}, extra + 1);
    assert limbo + {e} - {e} == limbo;
    Recount(h, Referenced(c, u, e), c.nNew + 1, limbo, extra + 1);
  }

  lemma PutBack(t: Table, u: Slot, e: int)
    ensures (t - {u})[u := e] == t[u := e]
  {
  }

  lemma EvictedEffect(h: Hashing, s: State, slot: Slot, limbo: set<int>, extra: int)
    requires Midway(h, s, limbo, extra) && slot in s.triedTable
    ensures var e, r := s.triedTable[slot], Evicted(h, s, slot, limbo, extra);
            && e in s.info && s.info[e].inTried
            && var u := NewSlot(h, s.key, s.info[e].service, s.info[e].source);
            && r.key == s.key && r.idCount == s.idCount && r.nTried == s.nTried - 1
            && r.triedTable == s.triedTable - {slot} && r.newTable == s.newTable[u := e]
            && r.info.Keys == s.info.Keys - Lost(s, u) && r.addr == s.addr - Ips(s, Lost(s, u))
            && EntriesKept(s, r, Lost(s, u), e)
            && forall x :: x in limbo && x in s.info ==> x in r.info && SameEntry(r.info[x], s.info[x])
  {
    hide IndexOk, NewTableOk, TriedTableOk, EntriesOk, CountsOk, Cleared, SlotIn, Holding, NewBucket, Position;
    DemotedMidway(h, s, slot, limbo, extra);
    var e, d := s.triedTable[slot], Demoted(s, slot);
    var u := NewSlot(h, s.key, s.info[e].service, s.info[e].source);
    ClearedMidway(h, d, u, limbo + {e}, extra + 1);
    var c := Cleared(d, u);
    DemotedLost(s, slot, u);
    PutBack(s.newTable, u, e);
    assert e in c.info;
    assert Referenced(c, u, e).info.Keys == c.info.Keys;
    forall x | x in limbo && x in s.info ensures x in c.info && SameEntry(c.info[x], s.info[x]) {
      assert x in d.info && d.info[x] == s.info[x];
    }
  }

  lemma DemotedLost(s: State, slot: Slot, u: Slot)
    requires slot in s.triedTable && s.triedTable[slot] in s.info
    ensures var d := Demoted(s, slot);
            d.info.Keys == s.info.Keys && Lost(d, u) == Lost(s, u) && Ips(d, Lost(s, u)) == Ips(s, Lost(s, u))
  {
    var e, d := s.triedTable[slot], Demoted(s, slot);
    assert d.info.Keys == s.info.Keys + {e};
    assert forall x :: x in s.info ==> d.info[x].service.ip == s.info[x].service.ip;
  }

  /** Put an entry without references into the tried table, making room first. */
  ghost function Seated(h: Hashing, a: State, id: int): State
    requires Midway(h, a, {} + {id}, 1)
  {
    var slot := TriedSlot(h, a.key, a.info[id].service);
    if slot in a.triedTable then
      EvictedMidway(h, a, slot, {} + {id}, 1);
      Promoted(h, Evicted(h, a, slot, {} + {id}, 1), id)
    else Promoted(h, a, id)
  }

  /** `MakeTried`. */
  ghost function MadeTried(h: Hashing, s: State, id: int): State
    requires Settled(h, s) && id in s.info && !s.info[id].inTried
  {
    UncountedMidway(h, s, id);
    var t := Sweep(h, s, id, 0);
    var a := t.(nNew := t.nNew - 1);
    Seated(h, a, id)
  }

  /** The entry that has to go when `id` is moved to the tried table: at most one, and only from the evicted entry's slot. */
  function Sacrificed(h: Hashing, s: State, id: int): set<int>
    requires id in s.info
  {
    var slot := TriedSlot(h, s.key, s.info[id].service);
    if slot !in s.triedTable || s.triedTable[slot] !in s.info then {}
    else
      var e := s.info[s.triedTable[slot]];
      Lost(s, NewSlot(h, s.key, e.service, e.source)) - {id}
  }

  lemma LostUnlisted(s: State, id: int, u: Slot)
    requires id in s.info
    ensures Lost(Unlisted(s, id), u) == Lost(s, u) - {id}
  {
    var r := Unlisted(s, id);
    assert forall x :: x != id ==> Holding(r.newTable, x) == Holding(s.newTable, x);
    assert u in r.newTable <==> u in s.newTable && s.newTable[u] != id;
  }

  /** Taking the entry out of the new table, with the count adjusted. */
  function Uncounted(s: State, id: int): State
    requires id in s.info
  {
    var t := Unlisted(s, id);
    t.(nNew := t.nNew - 1)
  }

  lemma UncountedMidway(h: Hashing, s: State, id: int)
    requires Settled(h, s) && id in s.info && !s.info[id].inTried
    ensures Midway(h, Uncounted(s, id), {} + {id}, 1)
    ensures Sweep(h, s, id, 0) == Unlisted(s, id)
    ensures Uncounted(s, id).info.Keys == s.info.Keys
  {
    hide Sweep, Unlisted, IndexOk, NewTableOk, TriedTableOk, EntriesOk, CountsOk, ReferencesFrom;
    AllReferences(h, s, id);
    SweepUnlists(h, s, id, 0);
    UnlistedMidway(h, s, id, {}, 0);
    Recount(h, Unlisted(s, id), s.nNew - 1, {} + {id}, 0);
    UnlistedRest(s, id);
  }

  lemma UnlistedRest(s: State, id: int)
    requires id in s.info
    ensures var r := Unlisted(s, id); r.info.Keys == s.info.Keys && r.nNew == s.nNew
  {
  }

  /** The tried table gains the entry and loses at most the one it replaces; the new table takes that one back. */
  lemma MadeTriedEffect(h: Hashing, s: State, id: int)
    requires Settled(h, s) && id in s.info && !s.info[id].inTried
    ensures var r, slot := MadeTried(h, s, id), TriedSlot(h, s.key, s.info[id].service);
            && Settled(h, r) && r.key == s.key && r.idCount == s.idCount
            && r.triedTable == s.triedTable[slot := id]
            && EntriesKept(s, r, Sacrificed(h, s, id), id) && id in r.info && r.info[id].inTried
            && r.addr == s.addr - Ips(s, Sacrificed(h, s, id))
            && (slot !in s.triedTable ==>
                  r.nTried == s.nTried + 1 && r.newTable == s.newTable - Holding(s.newTable, id))
            && (slot in s.triedTable ==>
                  var e := s.triedTable[slot];
                  && e in s.info && r.nTried == s.nTried
                  && r.newTable == (s.newTable - Holding(s.newTable, id))[NewSlot(h, s.key, s.info[e].service, s.info[e].source) := e])
  {
    hide Midway, Cleared, TriedSlot, NewSlot, Holding, Evicted, Sweep;
    UncountedMidway(h, s, id);
    var a, slot := Uncounted(s, id), TriedSlot(h, s.key, s.info[id].service);
    if slot in s.triedTable {
      Replaces(h, s, id);
    } else {
      PromotedMidway(h, a, id, {} + {id}, 1);
      assert {} + {id} - {id} == {};
      assert Promoted(h, a, id).info.Keys == a.info.Keys;
    }
  }

  lemma Replaces(h: Hashing, s: State, id: int)
    requires Settled(h, s) && id in s.info && !s.info[id].inTried
    requires TriedSlot(h, s.key, s.info[id].service) in s.triedTable
    ensures var r, slot := MadeTried(h, s, id), TriedSlot(h, s.key, s.info[id].service);
            var e := s.triedTable[slot];
            && Settled(h, r) && r.key == s.key && r.idCount == s.idCount && e in s.info
            && r.triedTable == s.triedTable[slot := id] && r.nTried == s.nTried
            && r.newTable == (s.newTable - Holding(s.newTable, id))[NewSlot(h, s.key, s.info[e].service, s.info[e].source) := e]
            && EntriesKept(s, r, Sacrificed(h, s, id), id) && id in r.info && r.info[id].inTried
            && r.addr == s.addr - Ips(s, Sacrificed(h, s, id))
  {
    hide Midway, Cleared, TriedSlot, NewSlot, Holding, Evicted, Sweep, Lost;
    UncountedMidway(h, s, id);
    var a, slot := Uncounted(s, id), TriedSlot(h, s.key, s.info[id].service);
    var e := s.triedTable[slot];
    EvictedMidway(h, a, slot, {} + {id}, 1);
    EvictedEffect(h, a, slot, {} + {id}, 1);
    var b := Evicted(h, a, slot, {} + {id}, 1);
    assert a.info[e].service == s.info[e].service && a.info[e].source == s.info[e].source;
    LostUncounted(s, id, NewSlot(h, s.key, s.info[e].service, s.info[e].source));
    assert id in b.info && SameEntry(b.info[id], a.info[id]);
    PromotedMidway(h, b, id, {} + {id}, 1);
    assert {} + {id} - {id} == {};
    PutBack(s.triedTable, slot, id);
    assert Promoted(h, b, id).info.Keys == b.info.Keys;
  }

  lemma LostUncounted(s: State, id: int, u: Slot)
    requires id in s.info
    ensures Lost(Uncounted(s, id), u) == Lost(s, u) - {id}
    ensures Ips(Uncounted(s, id), Lost(s, u) - {id}) == Ips(s, Lost(s, u) - {id})
  {
    LostUnlisted(s, id, u);
    assert Uncounted(s, id).info.Keys == s.info.Keys;
  }

  lemma AllReferences(h: Hashing, s: State, id: int)
    requires Settled(h, s) && id in s.info && !s.info[id].inTried
    ensures ReferencesFrom(h, s, id, 0)
  {
    assert EntryOk(h, s, id, false);
  }

  // ---------------------------------------------------------------- marking entries

  /** The entry for exactly this address and port (`Find`, followed by the comparison with the service). */
  function Known(s: State, service: Service): Option<int> {
    if service.ip in s.addr && s.addr[service.ip] in s.info && s.info[s.addr[service.ip]].service == service
    then Some(s.addr[service.ip]) else None
  }

  /** `Attempt_`. */
  function Attempted(s: State, service: Service, time: int): State {
    var k := Known(s, service);
    if k.None? then s
    else
      var i := s.info[k.value];
      s.(info := s.info[k.value := i.(lastTry := time, attempts := i.attempts + 1)])
  }

  /** `Connected_`; the time is stored in 32 bits. */
  function Connected(s: State, service: Service, time: int): State {
    var k := Known(s, service);
    if k.None? then s
    else
      var i := s.info[k.value];
      if time - i.time > 20 * 60 then s.(info := s.info[k.value := i.(time := time % 0x1_0000_0000)]) else s
  }

  /** A successful connection, as far as the entry itself is concerned. */
  function Succeeded(s: State, id: int, time: int): State
    requires id in s.info
  {
    s.(info := s.info[id := s.info[id].(lastSuccess := time, lastTry := time, attempts := 0)])
  }

  lemma SucceededSettled(h: Hashing, s: State, id: int, time: int)
    requires Settled(h, s) && id in s.info
    ensures Settled(h, Succeeded(s, id, time))
  {
    hide Midway;
    UpdatedMidway(h, s, id, s.info[id].(lastSuccess := time, lastTry := time, attempts := 0), {}, 0);
  }

  /** `Good_`. */
  ghost function Good(h: Hashing, s: State, service: Service, time: int): State
    requires Settled(h, s)
  {
    var k := Known(s, service);
    if k.None? then s
    else
      SucceededSettled(h, s, k.value, time);
      var t := Succeeded(s, k.value, time);
      if t.info[k.value].inTried then t else MadeTried(h, t, k.value)
  }

  lemma EditedAddr(s: State, id: int, i: Info)
    requires AddrOk(s) && id in s.info && i.service == s.info[id].service
    ensures AddrOk(s.(info := s.info[id := i]))
  {
  }

  lemma UpdatedSteady(h: Hashing, s: State, id: int, i: Info)
    requires Steady(h, s) && id in s.info && SamePlace(i, s.info[id])
    ensures Steady(h, s.(info := s.info[id := i]))
  {
    hide Midway, AddrOk;
    UpdatedMidway(h, s, id, i, {}, 0);
    EditedAddr(s, id, i);
  }

  lemma MarkedSteady(h: Hashing, s: State, service: Service, time: int)
    requires Steady(h, s)
    ensures Steady(h, Attempted(s, service, time)) && Steady(h, Connected(s, service, time))
  {
    hide Midway, AddrOk;
    var k := Known(s, service);
    if k.Some? {
      var i := s.info[k.value];
      UpdatedSteady(h, s, k.value, i.(lastTry := time, attempts := i.attempts + 1));
      UpdatedSteady(h, s, k.value, i.(time := time % 0x1_0000_0000));
    }
  }

  /** Attempts keep the invariant exactly when they concern no known service or their time is not negative. */
  lemma AttemptedInv(h: Hashing, s: State, service: Service, time: int)
    requires Inv(h, s)
    ensures Inv(h, Attempted(s, service, time)) <==> Known(s, service).None? || time >= 0
  {
    hide Midway, AddrOk;
    MarkedSteady(h, s, service, time);
    var k := Known(s, service);
    if k.Some? {
      TimesEdited(s, k.value, s.info[k.value].(lastTry := time, attempts := s.info[k.value].attempts + 1));
    }
  }

  lemma TimesEdited(s: State, id: int, i: Info)
    requires TimesOk(s) && id in s.info
    ensures TimesOk(s.(info := s.info[id := i])) <==> TimeOk(i)
  {
    hide TimeOk;
    var r := s.(info := s.info[id := i]);
    assert r.info[id] == i;
  }

  lemma ConnectedInv(h: Hashing, s: State, service: Service, time: int)
    requires Inv(h, s)
    ensures Inv(h, Connected(s, service, time))
  {
    hide Midway, AddrOk;
    MarkedSteady(h, s, service, time);
    var k := Known(s, service);
    if k.Some? {
      TimesEdited(s, k.value, s.info[k.value].(time := time % 0x1_0000_0000));
    }
  }

  /** Everything but the times is kept, whatever the time. */
  lemma GoodSteady(h: Hashing, s: State, service: Service, time: int)
    requires Steady(h, s)
    ensures Steady(h, Good(h, s, service, time))
  {
    hide Midway, MadeTried, AddrOk, Sacrificed, EntriesKept;
    var k := Known(s, service);
    if k.Some? {
      SucceededSettled(h, s, k.value, time);
      var t := Succeeded(s, k.value, time);
      EditedAddr(s, k.value, t.info[k.value]);
      if !t.info[k.value].inTried {
        MadeTriedEffect(h, t, k.value);
        AddrFrame(t, MadeTried(h, t, k.value), Sacrificed(h, t, k.value), k.value);
      }
    }
  }

  /** What `Good_` leaves of the times: the entry ends up tried, with the time given. */
  lemma GoodTimes(h: Hashing, s: State, service: Service, time: int)
    requires Settled(h, s) && TimesOk(s) && Known(s, service).Some?
    ensures TimesOk(Good(h, s, service, time)) <==> time > 0
  {
    hide Midway, MadeTried, Sacrificed;
    var id := Known(s, service).value;
    SucceededSettled(h, s, id, time);
    var t := Succeeded(s, id, time);
    if t.info[id].inTried {
      TimesEdited(s, id, t.info[id]);
    } else {
      MadeTriedEffect(h, t, id);
      var r := MadeTried(h, t, id);
      assert r.info[id].lastSuccess == time && r.info[id].inTried;
      forall x | x in r.info && x != id ensures TimeOk(r.info[x]) {
        assert TimeOk(s.info[x]) && t.info[x] == s.info[x];
      }
      assert TimesOk(r) ==> TimeOk(r.info[id]);
    }
  }

  /** `Good_` keeps the invariant exactly when it concerns no known service or its time is positive. */
  lemma GoodInv(h: Hashing, s: State, service: Service, time: int)
    requires Inv(h, s)
    ensures Inv(h, Good(h, s, service, time)) <==> Known(s, service).None? || time > 0
  {
    hide Midway, AddrOk, TimesOk;
    GoodSteady(h, s, service, time);
    if Known(s, service).Some? {
      GoodTimes(h, s, service, time);
    }
  }

  /** A success at time zero leaves a tried entry that the check rejects. */
  lemma GoodAtZero(h: Hashing, s: State, service: Service)
    requires Inv(h, s) && Known(s, service).Some?
    ensures !Inv(h, Good(h, s, service, 0))
  {
    hide Midway, Good;
    GoodInv(h, s, service, 0);
  }

  /** A new entry is referenced from some bucket, in the position where `Good_` looks for it. */
  lemma FindsBucket(h: Hashing, s: State, id: int) returns (bucket: int)
    requires Settled(h, s) && id in s.info && !s.info[id].inTried
    ensures 0 <= bucket < NEW_BUCKET_COUNT
    ensures var slot := SlotIn(h, s.key, bucket, s.info[id].service); slot in s.newTable && s.newTable[slot] == id
  {
    assert EntryOk(h, s, id, false);
    var slot := SomeElement(Holding(s.newTable, id));
    bucket := slot.0;
  }

  /** Marking an entry good: the tried table grows by at most one, and at most one known address disappears. */
  lemma GoodEffect(h: Hashing, s: State, service: Service, time: int)
    requires Settled(h, s)
    ensures var r, k := Good(h, s, service, time), Known(s, service);
            && s.nTried <= r.nTried <= s.nTried + 1 && r.key == s.key
            && (k.None? ==> r == s)
            && (k.Some? && s.info[k.value].inTried ==> r == Succeeded(s, k.value, time))
            && (k.Some? && !s.info[k.value].inTried ==>
                  && r.info.Keys == s.info.Keys - Sacrificed(h, s, k.value)
                  && r.addr == s.addr - Ips(s, Sacrificed(h, s, k.value))
                  && |Sacrificed(h, s, k.value)| <= 1 && k.value !in Sacrificed(h, s, k.value)
                  && r.triedTable == s.triedTable[TriedSlot(h, s.key, service) := k.value])
  {
    hide Midway, MadeTried, TriedSlot, NewSlot, Holding;
    var k := Known(s, service);
    if k.Some? {
      SucceededSettled(h, s, k.value, time);
      var t := Succeeded(s, k.value, time);
      assert t.info.Keys == s.info.Keys;
      if !t.info[k.value].inTried {
        MadeTriedEffect(h, t, k.value);
        SacrificedSame(h, s, t, k.value);
      }
    }
  }

  lemma SacrificedSame(h: Hashing, s: State, t: State, id: int)
    requires id in s.info && t == s.(info := t.info) && t.info.Keys == s.info.Keys
    requires forall x :: x in s.info ==> x in t.info && t.info[x].service == s.info[x].service && t.info[x].source == s.info[x].source
    ensures Sacrificed(h, t, id) == Sacrificed(h, s, id)
    ensures Ips(t, Sacrificed(h, t, id)) == Ips(s, Sacrificed(h, s, id))
    ensures |Sacrificed(h, s, id)| <= 1
  {
    hide TriedSlot, NewSlot, Holding;
    assert forall x :: x in s.info <==> x in t.info;
    var slot := TriedSlot(h, s.key, s.info[id].service);
    if slot in s.triedTable && s.triedTable[slot] in s.info {
      var x := s.triedTable[slot];
      var e := s.info[x];
      var u := NewSlot(h, s.key, e.service, e.source);
      assert x in t.info && t.info[x].service == e.service && t.info[x].source == e.source;
      assert Lost(t, u) == Lost(s, u);
      AtMostOne(s, u, id);
    }
  }

  lemma AtMostOne(s: State, u: Slot, id: int)
    ensures |Lost(s, u) - {id}| <= 1
  {
    if u in s.newTable {
      assert Lost(s, u) - {id} <= {s.newTable[u]};
      assert Lost(s, u) - {id} == {} || Lost(s, u) - {id} == {s.newTable[u]};
    }
  }
}
