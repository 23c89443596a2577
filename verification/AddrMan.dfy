/**
 * The address manager's state, its invariant and the primitive steps on it
 * (`CAddrInfo`, `CAddrMan`; src/addrman.h, src/addrman.cpp).
 */
module AddrMan {
  import opened Common

  const TRIED_BUCKET_COUNT: int := 256
  const NEW_BUCKET_COUNT: int := 1024
  const BUCKET_SIZE: int := 64
  const TRIED_BUCKETS_PER_GROUP: int := 8
  const NEW_BUCKETS_PER_SOURCE_GROUP: int := 64
  const NEW_BUCKETS_PER_ADDRESS: int := 8

  type NetAddr = int
  type Key = int
  type Group = int
  type Slot = (int, int)

  /** A word of service flags, as the set of its one-bits. */
  type Services = set<int>

  /** A table of buckets; a slot that is not in the map holds -1. */
  type Table = map<Slot, int>

  datatype Service = Service(ip: NetAddr, port: int)

  datatype Address = Address(service: Service, services: Services, time: nat)

  datatype Info = Info(service: Service, services: Services, time: nat, source: NetAddr, lastSuccess: int, lastTry: int,
                       attempts: int, refCount: int, inTried: bool, randomPos: int)

  /** The network's address groups, the hash functions and the notion of a routable address. */
  datatype Hashing = Hashing(
    group: NetAddr -> Group,
    routable: NetAddr -> bool,
    triedInner: (Key, Service) -> nat,
    triedOuter: (Key, Group, nat) -> nat,
    newInner: (Key, Group, Group) -> nat,
    newOuter: (Key, Group, nat) -> nat,
    position: (Key, bool, int, Service) -> nat)

  datatype State = State(key: Key, idCount: int, info: map<int, Info>, addr: map<NetAddr, int>, random: seq<int>,
                         nTried: int, triedTable: Table, nNew: int, newTable: Table)

  // ---------------------------------------------------------------- where an entry belongs

  function TriedBucket(h: Hashing, key: Key, s: Service): (b: int)
    ensures 0 <= b < TRIED_BUCKET_COUNT
  {
    h.triedOuter(key, h.group(s.ip), h.triedInner(key, s) % TRIED_BUCKETS_PER_GROUP) % TRIED_BUCKET_COUNT
  }

  function NewBucket(h: Hashing, key: Key, s: Service, source: NetAddr): (b: int)
    ensures 0 <= b < NEW_BUCKET_COUNT
  {
    var g := h.group(source);
    h.newOuter(key, g, h.newInner(key, h.group(s.ip), g) % NEW_BUCKETS_PER_SOURCE_GROUP) % NEW_BUCKET_COUNT
  }

  function Position(h: Hashing, key: Key, isNew: bool, bucket: int, s: Service): (p: int)
    ensures 0 <= p < BUCKET_SIZE
  {
    h.position(key, isNew, bucket, s) % BUCKET_SIZE
  }

  function TriedSlot(h: Hashing, key: Key, s: Service): Slot {
    var b := TriedBucket(h, key, s);
    (b, Position(h, key, false, b, s))
  }

  /** The slot of a new-table bucket where an entry belongs. */
  function SlotIn(h: Hashing, key: Key, bucket: int, s: Service): Slot {
    (bucket, Position(h, key, true, bucket, s))
  }

  function NewSlot(h: Hashing, key: Key, s: Service, source: NetAddr): Slot {
    SlotIn(h, key, NewBucket(h, key, s, source), s)
  }

  /** Does a slot come before position `k` of bucket `b` in a scan of the table? */
  predicate Before(slot: Slot, b: int, k: int) {
    slot.0 < b || (slot.0 == b && slot.1 < k)
  }

  // ---------------------------------------------------------------- the invariant

  /** The slots of a table that hold an id. */
  function Holding(t: Table, id: int): set<Slot> {
    set slot | slot in t && t[slot] == id
  }

  function TriedIds(info: map<int, Info>): set<int> {
    set id | id in info && info[id].inTried
  }

  function NewIds(info: map<int, Info>): set<int> {
    set id | id in info && !info[id].inTried
  }

  /** Ids are below the counter, and the random order is the inverse of the positions. */
  ghost predicate IndexOk(s: State) {
    && s.idCount >= 0
    && (forall id :: id in s.info ==>
          && 0 <= id < s.idCount
          && 0 <= s.info[id].randomPos < |s.random| && s.random[s.info[id].randomPos] == id)
    && (forall i :: 0 <= i < |s.random| ==> s.random[i] in s.info && s.info[s.random[i]].randomPos == i)
  }

  /** The address index is the inverse of the entries' addresses. */
  ghost predicate AddrOk(s: State) {
    && (forall id :: id in s.info ==> s.info[id].service.ip in s.addr && s.addr[s.info[id].service.ip] == id)
    && (forall ip :: ip in s.addr ==> s.addr[ip] in s.info && s.info[s.addr[ip]].service.ip == ip)
  }

  /** No time is negative, and tried entries had a success. */
  ghost predicate TimesOk(s: State) {
    forall id :: id in s.info ==> TimeOk(s.info[id])
  }

  predicate TimeOk(i: Info) {
    i.lastTry >= 0 && i.lastSuccess >= 0 && (i.inTried ==> i.lastSuccess > 0)
  }

  /** Every slot of the new table holds a new entry, in the position its hash demands. */
  ghost predicate NewTableOk(h: Hashing, s: State) {
    forall slot :: slot in s.newTable ==>
      && 0 <= slot.0 < NEW_BUCKET_COUNT
      && s.newTable[slot] in s.info
      && !s.info[s.newTable[slot]].inTried
      && slot == SlotIn(h, s.key, slot.0, s.info[s.newTable[slot]].service)
  }

  ghost predicate TriedTableOk(h: Hashing, s: State) {
    forall slot :: slot in s.triedTable ==>
      && s.triedTable[slot] in s.info
      && s.info[s.triedTable[slot]].inTried
      && slot == TriedSlot(h, s.key, s.info[s.triedTable[slot]].service)
  }

  /** A tried entry is in its slot; a new one is referenced one to eight times, or not at all while in limbo. */
  ghost predicate EntryOk(h: Hashing, s: State, id: int, inLimbo: bool)
    requires id in s.info
  {
    var i := s.info[id];
    && (i.inTried ==>
          && !inLimbo && i.refCount == 0
          && TriedSlot(h, s.key, i.service) in s.triedTable && s.triedTable[TriedSlot(h, s.key, i.service)] == id)
    && (!i.inTried ==>
          && i.refCount == |Holding(s.newTable, id)|
          && (if inLimbo then i.refCount == 0 else 1 <= i.refCount <= NEW_BUCKETS_PER_ADDRESS))
  }

  ghost predicate EntriesOk(h: Hashing, s: State, limbo: set<int>) {
    && limbo <= s.info.Keys
    && forall id :: id in s.info ==> EntryOk(h, s, id, id in limbo)
  }

  /** The counters; `extra` entries are new but not counted as such at the moment. */
  ghost predicate CountsOk(s: State, extra: int) {
    s.nTried == |TriedIds(s.info)| && s.nNew == |NewIds(s.info)| - extra
  }

  /** The invariant in the middle of an operation, apart from the address index and the times. */
  ghost predicate Midway(h: Hashing, s: State, limbo: set<int>, extra: int) {
    IndexOk(s) && NewTableOk(h, s) && TriedTableOk(h, s) && EntriesOk(h, s, limbo) && CountsOk(s, extra)
  }

  /** Nothing pending: the invariant between operations, apart from the address index and the times. */
  ghost predicate Settled(h: Hashing, s: State) {
    Midway(h, s, {}, 0)
  }

  /** The invariant, apart from the times. */
  ghost predicate Steady(h: Hashing, s: State) {
    Settled(h, s) && AddrOk(s)
  }

  /** What `CAddrMan::Check_` checks. */
  ghost predicate Inv(h: Hashing, s: State) {
    Steady(h, s) && TimesOk(s)
  }

  /** A manager just constructed. */
  function Empty(key: Key): State {
    State(key, 0, map[], map[], [], 0, map[], 0, map[])
  }

  lemma EmptyInv(h: Hashing, key: Key)
    ensures Inv(h, Empty(key))
  {
  }

  // ---------------------------------------------------------------- cardinalities

  lemma HoldingAdd(t: Table, slot: Slot, id: int)
    requires slot !in t
    ensures Holding(t[slot := id], id) == Holding(t, id) + {slot}
    ensures |Holding(t[slot := id], id)| == |Holding(t, id)| + 1
    ensures forall x :: x != id ==> Holding(t[slot := id], x) == Holding(t, x)
  {
    assert Holding(t[slot := id], id) == Holding(t, id) + {slot};
  }

  lemma HoldingRemove(t: Table, slot: Slot)
    requires slot in t
    ensures Holding(t - {slot}, t[slot]) == Holding(t, t[slot]) - {slot}
    ensures |Holding(t - {slot}, t[slot])| == |Holding(t, t[slot])| - 1
    ensures forall x :: x != t[slot] ==> Holding(t - {slot}, x) == Holding(t, x)
  {
    assert Holding(t - {slot}, t[slot]) == Holding(t, t[slot]) - {slot};
    assert slot in Holding(t, t[slot]);
  }

  lemma NoneHeld(t: Table, id: int)
    ensures |Holding(t, id)| == 0 <==> forall slot :: slot in t ==> t[slot] != id
  {
    if |Holding(t, id)| == 0 {
      assert forall slot :: slot in t && t[slot] == id ==> slot in Holding(t, id);
    } else {
      var slot := SomeElement(Holding(t, id));
    }
  }

  /** Changing what an entry says, but not which table it is in, keeps the counters. */
  lemma CountsSame(info: map<int, Info>, id: int, i: Info)
    requires id in info && info[id].inTried == i.inTried
    ensures TriedIds(info[id := i]) == TriedIds(info) && NewIds(info[id := i]) == NewIds(info)
  {
  }

  lemma CountsInsert(info: map<int, Info>, id: int, i: Info)
    requires id !in info && !i.inTried
    ensures TriedIds(info[id := i]) == TriedIds(info) && |NewIds(info[id := i])| == |NewIds(info)| + 1
  {
    assert NewIds(info[id := i]) == NewIds(info) + {id};
  }

  lemma CountsRemove(info: map<int, Info>, id: int)
    requires id in info && !info[id].inTried
    ensures TriedIds(info - {id}) == TriedIds(info) && |NewIds(info - {id})| == |NewIds(info)| - 1
  {
    assert NewIds(info - {id}) == NewIds(info) - {id};
    assert id in NewIds(info);
  }

  lemma CountsFlip(info: map<int, Info>, id: int, i: Info)
    requires id in info && info[id].inTried != i.inTried
    ensures |TriedIds(info[id := i])| == |TriedIds(info)| + if i.inTried then 1 else -1
    ensures |NewIds(info[id := i])| == |NewIds(info)| - if i.inTried then 1 else -1
  {
    if i.inTried {
      assert TriedIds(info[id := i]) == TriedIds(info) + {id};
      assert NewIds(info[id := i]) == NewIds(info) - {id} && id in NewIds(info);
    } else {
      assert TriedIds(info[id := i]) == TriedIds(info) - {id} && id in TriedIds(info);
      assert NewIds(info[id := i]) == NewIds(info) + {id};
    }
  }
}
