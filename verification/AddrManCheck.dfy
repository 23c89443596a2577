/** The address manager's own consistency check, and what it leaves unchecked (`CAddrMan::Check_`, src/addrman.cpp). */
module AddrManCheck {
  import opened Common
  import opened AddrMan
  import opened AddrManTable

  /** Looking an address up the way `mapAddr[...]` does: an unknown one reads as 0. */
  function MapAddr(s: State, ip: NetAddr): int {
    if ip in s.addr then s.addr[ip] else 0
  }

  /** What the first loop checks of an entry. */
  predicate EntryPasses(s: State, id: int)
    requires id in s.info
  {
    var i := s.info[id];
    && (if i.inTried then i.lastSuccess != 0 && i.refCount == 0 else 1 <= i.refCount <= NEW_BUCKETS_PER_ADDRESS)
    && MapAddr(s, i.service.ip) == id
    && 0 <= i.randomPos < |s.random| && s.random[i.randomPos] == id
    && i.lastTry >= 0 && i.lastSuccess >= 0
  }

  /** Every tried slot holds a tried entry where it belongs, and every tried entry has exactly one slot. */
  ghost predicate TriedPasses(h: Hashing, s: State) {
    && (forall slot :: slot in s.triedTable ==>
          s.triedTable[slot] in TriedIds(s.info) && slot == TriedSlot(h, s.key, s.info[s.triedTable[slot]].service))
    && (forall id :: id in TriedIds(s.info) ==> |Holding(s.triedTable, id)| == 1)
  }

  /** Every new slot holds a new entry where it belongs, and every new entry has as many slots as it has references. */
  ghost predicate NewPasses(h: Hashing, s: State) {
    && (forall slot :: slot in s.newTable ==>
          && s.newTable[slot] in NewIds(s.info)
          && slot == SlotIn(h, s.key, slot.0, s.info[s.newTable[slot]].service))
    && (forall id :: id in NewIds(s.info) ==> |Holding(s.newTable, id)| == s.info[id].refCount)
  }

  /** `Check_` returns 0. */
  ghost predicate CheckPasses(h: Hashing, s: State) {
    && |s.random| == s.nTried + s.nNew
    && (forall id :: id in s.info ==> EntryPasses(s, id))
    && |TriedIds(s.info)| == s.nTried && |NewIds(s.info)| == s.nNew
    && TriedPasses(h, s) && NewPasses(h, s)
    && s.key != 0
  }

  /** What the check does not look at: ids below the counter, the table bounds, and no stale addresses. */
  predicate Unchecked(s: State) {
    && s.idCount >= 0 && (forall id :: id in s.info ==> 0 <= id < s.idCount && s.info[id].service.ip in s.addr)
    && (forall ip :: ip in s.addr ==> s.addr[ip] in s.info && s.info[s.addr[ip]].service.ip == ip)
    && (forall slot :: slot in s.newTable ==> 0 <= slot.0 < NEW_BUCKET_COUNT)
  }

  // ---------------------------------------------------------------- counting

  function Range(n: nat): (r: set<int>)
    ensures forall i :: i in r <==> 0 <= i < n
  {
    if n == 0 then {} else Range(n - 1) + {n - 1}
  }

  lemma {:induction false} RangeSize(n: nat)
    ensures |Range(n)| == n
  {
    if n > 0 {
      RangeSize(n - 1);
    }
  }

  /** The positions of some entries in the random order. */
  function Positions(s: State, ids: set<int>): set<int> {
    set id | id in ids && id in s.info :: s.info[id].randomPos
  }

  /** Entries that find themselves at their positions have different ones. */
  lemma {:induction false} PositionsSize(s: State, ids: set<int>)
    requires ids <= s.info.Keys
    requires forall id :: id in ids ==> 0 <= s.info[id].randomPos < |s.random| && s.random[s.info[id].randomPos] == id
    ensures |Positions(s, ids)| == |ids|
    decreases |ids|
  {
    if ids == {} {
      assert Positions(s, ids) == {};
    } else {
      var id := SomeElement(ids);
      PositionsSize(s, ids - {id});
      assert Positions(s, ids) == Positions(s, ids - {id}) + {s.info[id].randomPos};
    }
  }

  lemma SameSize(a: set<int>, b: set<int>)
    requires a <= b && |a| == |b|
    ensures a == b
  {
    assert b == a + (b - a);
    if b - a != {} {
      var x := SomeElement(b - a);
      assert false;
    }
  }

  lemma AllIds(info: map<int, Info>)
    ensures |info.Keys| == |TriedIds(info)| + |NewIds(info)|
  {
    assert info.Keys == TriedIds(info) + NewIds(info);
    assert TriedIds(info) !! NewIds(info);
  }

  /** The random order holds every entry exactly once: by counting, nothing else fits in. */
  lemma RandomExactly(s: State)
    requires forall id :: id in s.info ==> 0 <= s.info[id].randomPos < |s.random| && s.random[s.info[id].randomPos] == id
    ensures |s.random| == |s.info.Keys| <==>
      forall i :: 0 <= i < |s.random| ==> s.random[i] in s.info && s.info[s.random[i]].randomPos == i
  {
    var p, r := Positions(s, s.info.Keys), Range(|s.random|);
    PositionsSize(s, s.info.Keys);
    RangeSize(|s.random|);
    assert p <= r;
    if |s.random| == |s.info.Keys| {
      SameSize(p, r);
      forall i | 0 <= i < |s.random| ensures s.random[i] in s.info && s.info[s.random[i]].randomPos == i {
        assert i in p;
      }
    }
    if forall i :: 0 <= i < |s.random| ==> s.random[i] in s.info && s.info[s.random[i]].randomPos == i {
      forall i | i in r ensures i in p {
        assert s.random[i] in s.info.Keys;
      }
      assert p == r;
    }
  }

  lemma OneSlot(t: Table, id: int, slot: Slot)
    requires slot in t && t[slot] == id && forall x :: x in t && t[x] == id ==> x == slot
    ensures |Holding(t, id)| == 1
  {
    assert Holding(t, id) == {slot};
  }

  lemma TheSlot(t: Table, id: int) returns (slot: Slot)
    requires |Holding(t, id)| == 1
    ensures slot in t && t[slot] == id
  {
    slot := SomeElement(Holding(t, id));
  }

  lemma InvEntry(h: Hashing, s: State, id: int)
    requires Inv(h, s) && id in s.info
    ensures EntryPasses(s, id)
  {
    hide TriedSlot, SlotIn, Holding, NewTableOk, TriedTableOk, CountsOk;
    assert EntryOk(h, s, id, false);
    assert TimeOk(s.info[id]);
  }

  lemma InvTried(h: Hashing, s: State)
    requires Settled(h, s)
    ensures TriedPasses(h, s)
  {
    hide IndexOk, NewTableOk, CountsOk, TriedSlot, Holding;
    forall id | id in TriedIds(s.info) ensures |Holding(s.triedTable, id)| == 1 {
      assert EntryOk(h, s, id, false);
      OneSlot(s.triedTable, id, TriedSlot(h, s.key, s.info[id].service));
    }
  }

  lemma InvNew(h: Hashing, s: State)
    requires Settled(h, s)
    ensures NewPasses(h, s)
  {
    hide IndexOk, TriedTableOk, CountsOk, SlotIn, Holding, TriedSlot;
    forall id | id in NewIds(s.info) ensures |Holding(s.newTable, id)| == s.info[id].refCount {
      assert EntryOk(h, s, id, false);
    }
  }

  lemma InvRandom(h: Hashing, s: State)
    requires Steady(h, s)
    ensures |s.random| == s.nTried + s.nNew && Unchecked(s)
  {
    hide TriedTableOk, EntriesOk, SlotIn, TriedIds, NewIds;
    AllIds(s.info);
    RandomExactly(s);
  }

  /** The invariant makes the check pass. */
  lemma InvPasses(h: Hashing, s: State)
    requires Inv(h, s) && s.key != 0
    ensures CheckPasses(h, s) && Unchecked(s)
  {
    hide IndexOk, NewTableOk, TriedTableOk, EntriesOk, AddrOk, TimesOk, TriedPasses, NewPasses, Unchecked, EntryPasses, TriedIds, NewIds;
    InvRandom(h, s);
    InvTried(h, s);
    InvNew(h, s);
    forall id | id in s.info ensures EntryPasses(s, id) {
      InvEntry(h, s, id);
    }
  }

  lemma PassesIndex(h: Hashing, s: State)
    requires CheckPasses(h, s) && Unchecked(s)
    ensures IndexOk(s) && AddrOk(s) && TimesOk(s)
  {
    hide TriedPasses, NewPasses;
    AllIds(s.info);
    forall id | id in s.info
      ensures 0 <= s.info[id].randomPos < |s.random| && s.random[s.info[id].randomPos] == id && s.addr[s.info[id].service.ip] == id
      ensures TimeOk(s.info[id])
    {
      assert EntryPasses(s, id);
    }
    RandomExactly(s);
  }

  /** A check that passes, together with what it does not look at, is the invariant. */
  lemma PassesInv(h: Hashing, s: State)
    requires CheckPasses(h, s) && Unchecked(s)
    ensures Inv(h, s)
  {
    hide TriedSlot, SlotIn, Holding;
    PassesIndex(h, s);
    hide IndexOk, AddrOk, TimesOk;
    forall id | id in s.info ensures EntryOk(h, s, id, false) {
      assert EntryPasses(s, id);
      if s.info[id].inTried {
        assert id in TriedIds(s.info);
        var slot := TheSlot(s.triedTable, id);
      } else {
        assert id in NewIds(s.info);
      }
    }
  }

  /** `Check_` passes exactly when the invariant holds, but for what it does not look at. */
  lemma CheckExactly(h: Hashing, s: State)
    ensures Inv(h, s) && s.key != 0 <==> CheckPasses(h, s) && Unchecked(s)
  {
    hide Midway, AddrOk, TimesOk, CheckPasses, Unchecked;
    if Inv(h, s) && s.key != 0 {
      InvPasses(h, s);
    }
    if CheckPasses(h, s) && Unchecked(s) {
      PassesInv(h, s);
      PassesKey(h, s);
    }
  }

  lemma PassesKey(h: Hashing, s: State)
    requires CheckPasses(h, s)
    ensures s.key != 0
  {
  }

  // ---------------------------------------------------------------- the code

  lemma BeforeStep(b: int, k: int)
    ensures forall slot: Slot :: Before(slot, b, k + 1) <==> Before(slot, b, k) || slot == (b, k)
  {
    forall slot: Slot ensures Before(slot, b, k + 1) <==> Before(slot, b, k) || slot == (b, k) {
      assert slot == (slot.0, slot.1);
    }
  }

  /** The slots of an entry looked at so far. */
  function Seen(t: Table, id: int, b: int, k: int): set<Slot> {
    set slot | slot in Holding(t, id) && Before(slot, b, k)
  }

  lemma SeenStep(t: Table, id: int, b: int, k: int)
    ensures |Seen(t, id, b, k + 1)| == |Seen(t, id, b, k)| + if (b, k) in t && t[(b, k)] == id then 1 else 0
  {
    if (b, k) in t && t[(b, k)] == id {
      assert Seen(t, id, b, k + 1) == Seen(t, id, b, k) + {(b, k)};
    } else {
      assert Seen(t, id, b, k + 1) == Seen(t, id, b, k);
    }
  }

  /** The slots of a table of `n` buckets. */
  ghost predicate InBounds(t: Table, n: int) {
    forall slot :: slot in t ==> 0 <= slot.0 < n && 0 <= slot.1 < BUCKET_SIZE
  }

  lemma SeenRow(t: Table, id: int, b: int, n: int)
    requires InBounds(t, n)
    ensures Seen(t, id, b, BUCKET_SIZE) == Seen(t, id, b + 1, 0)
    ensures Seen(t, id, 0, 0) == {} && Seen(t, id, n, 0) == Holding(t, id)
  {
  }

  lemma SeenSome(t: Table, id: int, b: int, k: int)
    ensures |Seen(t, id, b, k)| <= |Holding(t, id)|
  {
    assert Holding(t, id) == Seen(t, id, b, k) + (Holding(t, id) - Seen(t, id, b, k));
  }

  /** The tried slots looked at so far are as they should be, and `left` are the entries not met yet. */
  ghost predicate TriedSoFar(h: Hashing, s: State, left: set<int>, b: int, k: int) {
    && (forall slot :: slot in s.triedTable && Before(slot, b, k) ==>
          s.triedTable[slot] in TriedIds(s.info) && slot == TriedSlot(h, s.key, s.info[s.triedTable[slot]].service))
    && left <= TriedIds(s.info)
    && (forall id :: id in TriedIds(s.info) ==> |Seen(s.triedTable, id, b, k)| == if id in left then 0 else 1)
  }

  lemma TriedFree(h: Hashing, s: State, left: set<int>, b: int, k: int)
    requires TriedSoFar(h, s, left, b, k) && (b, k) !in s.triedTable
    ensures TriedSoFar(h, s, left, b, k + 1)
  {
    hide Seen, TriedSlot, TriedIds;
    forall id | id in TriedIds(s.info) ensures |Seen(s.triedTable, id, b, k + 1)| == if id in left then 0 else 1 {
      SeenStep(s.triedTable, id, b, k);
    }
    BeforeStep(b, k);
  }

  lemma TriedMet(h: Hashing, s: State, left: set<int>, b: int, k: int)
    requires TriedSoFar(h, s, left, b, k) && (b, k) in s.triedTable && s.triedTable[(b, k)] in left
    ensures s.triedTable[(b, k)] in s.info
    ensures (b, k) == TriedSlot(h, s.key, s.info[s.triedTable[(b, k)]].service) ==>
      TriedSoFar(h, s, left - {s.triedTable[(b, k)]}, b, k + 1)
  {
    hide Seen, TriedSlot;
    var x := s.triedTable[(b, k)];
    assert x in TriedIds(s.info);
    hide TriedIds;
    forall id | id in TriedIds(s.info) ensures |Seen(s.triedTable, id, b, k + 1)| == if id in left - {x} then 0 else 1 {
      SeenStep(s.triedTable, id, b, k);
    }
    BeforeStep(b, k);
  }

  /** An entry met a second time, or one that is not tried at all. */
  lemma TriedTwice(h: Hashing, s: State, left: set<int>, b: int, k: int)
    requires TriedSoFar(h, s, left, b, k) && (b, k) in s.triedTable && s.triedTable[(b, k)] !in left
    ensures !TriedPasses(h, s)
  {
    hide Seen, TriedSlot, TriedIds, Holding;
    var x := s.triedTable[(b, k)];
    if x in TriedIds(s.info) {
      SeenStep(s.triedTable, x, b, k);
      SeenSome(s.triedTable, x, b, k + 1);
    }
  }

  lemma TriedDone(h: Hashing, s: State, left: set<int>)
    requires TriedSoFar(h, s, left, TRIED_BUCKET_COUNT, 0) && InBounds(s.triedTable, TRIED_BUCKET_COUNT)
    ensures TriedPasses(h, s) <==> left == {}
  {
    hide Seen, TriedSlot, TriedIds, Holding;
    forall id | id in TriedIds(s.info) ensures |Holding(s.triedTable, id)| == if id in left then 0 else 1 {
      SeenRow(s.triedTable, id, 0, TRIED_BUCKET_COUNT);
    }
    assert forall slot :: slot in s.triedTable ==> Before(slot, TRIED_BUCKET_COUNT, 0);
    if left != {} {
      var id := SomeElement(left);
      assert id in TriedIds(s.info);
    }
  }

  lemma TriedRow(h: Hashing, s: State, left: set<int>, b: int)
    requires TriedSoFar(h, s, left, b, BUCKET_SIZE) && InBounds(s.triedTable, TRIED_BUCKET_COUNT)
    ensures TriedSoFar(h, s, left, b + 1, 0)
  {
    hide Seen, TriedSlot, TriedIds;
    forall id | id in TriedIds(s.info) ensures |Seen(s.triedTable, id, b + 1, 0)| == if id in left then 0 else 1 {
      SeenRow(s.triedTable, id, b, TRIED_BUCKET_COUNT);
    }
    assert forall slot :: slot in s.triedTable ==> (Before(slot, b + 1, 0) <==> Before(slot, b, BUCKET_SIZE));
  }

  lemma TriedStart(h: Hashing, s: State)
    requires InBounds(s.triedTable, TRIED_BUCKET_COUNT)
    ensures TriedSoFar(h, s, TriedIds(s.info), 0, 0)
  {
    hide Seen, TriedSlot;
    forall id | id in TriedIds(s.info) ensures |Seen(s.triedTable, id, 0, 0)| == 0 {
      SeenRow(s.triedTable, id, 0, TRIED_BUCKET_COUNT);
    }
  }

  lemma TableBounds(a: array2<int>)
    requires a.Length1 == BUCKET_SIZE
    ensures InBounds(TableOf(a), a.Length0)
  {
  }

  /** The loop over the tried table. */
  method CheckTried(m: AddrManager, tried: set<int>) returns (r: int, setTried: set<int>)
    requires m.Shaped() && tried == TriedIds(m.mapInfo)
    ensures r == 0 && setTried == {} <==> TriedPasses(m.h, m.Contents())
  {
    hide TableOf, TriedSoFar, TriedPasses, TriedIds, InBounds, TriedBucket, Position;
    ghost var s := m.Contents();
    TableBounds(m.vvTried);
    TriedStart(m.h, s);
    setTried := tried;
    var n := 0;
    while n < TRIED_BUCKET_COUNT
      invariant 0 <= n <= TRIED_BUCKET_COUNT && TriedSoFar(m.h, s, setTried, n, 0)
    {
      var i := 0;
      while i < BUCKET_SIZE
        invariant 0 <= i <= BUCKET_SIZE && TriedSoFar(m.h, s, setTried, n, i)
      {
        TableAt(m.vvTried, n, i);
        var id := m.vvTried[n, i];
        if id != -1 {
          if id !in setTried {
            TriedTwice(m.h, s, setTried, n, i);
            r := -11;
            return;
          }
          TriedMet(m.h, s, setTried, n, i);
          if TriedBucket(m.h, m.nKey, m.mapInfo[id].service) != n {
            TriedMisplaced(m.h, s, (n, i));
            r := -17;
            return;
          }
          if Position(m.h, m.nKey, false, n, m.mapInfo[id].service) != i {
            TriedMisplaced(m.h, s, (n, i));
            r := -18;
            return;
          }
          setTried := setTried - {id};
        } else {
          TriedFree(m.h, s, setTried, n, i);
        }
        i := i + 1;
      }
      TriedRow(m.h, s, setTried, n);
      n := n + 1;
    }
    TriedDone(m.h, s, setTried);
    r := 0;
  }

  lemma TriedMisplaced(h: Hashing, s: State, slot: Slot)
    requires slot in s.triedTable && s.triedTable[slot] in s.info && slot != TriedSlot(h, s.key, s.info[s.triedTable[slot]].service)
    ensures !TriedPasses(h, s)
  {
    hide TriedSlot, TriedIds;
  }

  /** The new slots looked at so far are as they should be, and `left` says how many more each entry must have. */
  ghost predicate NewSoFar(h: Hashing, s: State, left: map<int, int>, b: int, k: int) {
    && (forall slot :: slot in s.newTable && Before(slot, b, k) ==>
          && s.newTable[slot] in NewIds(s.info)
          && slot == SlotIn(h, s.key, slot.0, s.info[s.newTable[slot]].service))
    && (forall id :: id in left ==> id in NewIds(s.info) && left[id] > 0)
    && (forall id :: id in NewIds(s.info) ==>
          |Seen(s.newTable, id, b, k)| + (if id in left then left[id] else 0) == s.info[id].refCount)
  }

  lemma NewFree(h: Hashing, s: State, left: map<int, int>, b: int, k: int)
    requires NewSoFar(h, s, left, b, k) && (b, k) !in s.newTable
    ensures NewSoFar(h, s, left, b, k + 1)
  {
    hide Seen, SlotIn;
    forall id | id in NewIds(s.info)
      ensures |Seen(s.newTable, id, b, k + 1)| + (if id in left then left[id] else 0) == s.info[id].refCount
    {
      SeenStep(s.newTable, id, b, k);
    }
    BeforeStep(b, k);
  }

  /** One more slot of an entry that still lacks some. */
  function Ticked(left: map<int, int>, id: int): map<int, int>
    requires id in left
  {
    if left[id] == 1 then left - {id} else left[id := left[id] - 1]
  }

  lemma NewMet(h: Hashing, s: State, left: map<int, int>, b: int, k: int)
    requires NewSoFar(h, s, left, b, k) && (b, k) in s.newTable && s.newTable[(b, k)] in left
    ensures s.newTable[(b, k)] in s.info
    ensures (b, k) == SlotIn(h, s.key, b, s.info[s.newTable[(b, k)]].service) ==>
      NewSoFar(h, s, Ticked(left, s.newTable[(b, k)]), b, k + 1)
  {
    hide Seen, SlotIn;
    var x := s.newTable[(b, k)];
    assert x in NewIds(s.info);
    var left' := Ticked(left, x);
    forall id | id in NewIds(s.info)
      ensures |Seen(s.newTable, id, b, k + 1)| + (if id in left' then left'[id] else 0) == s.info[id].refCount
    {
      SeenStep(s.newTable, id, b, k);
    }
    BeforeStep(b, k);
  }

  /** An entry met too often, or one that is not new at all. */
  lemma NewTooOften(h: Hashing, s: State, left: map<int, int>, b: int, k: int)
    requires NewSoFar(h, s, left, b, k) && (b, k) in s.newTable && s.newTable[(b, k)] !in left
    ensures !NewPasses(h, s)
  {
    hide Seen, SlotIn, Holding;
    var x := s.newTable[(b, k)];
    if x in NewIds(s.info) {
      SeenStep(s.newTable, x, b, k);
      SeenSome(s.newTable, x, b, k + 1);
    }
  }

  lemma NewDone(h: Hashing, s: State, left: map<int, int>)
    requires NewSoFar(h, s, left, NEW_BUCKET_COUNT, 0) && InBounds(s.newTable, NEW_BUCKET_COUNT)
    ensures NewPasses(h, s) <==> left.Keys == {}
  {
    hide Seen, SlotIn, Holding;
    forall id | id in NewIds(s.info)
      ensures |Holding(s.newTable, id)| + (if id in left then left[id] else 0) == s.info[id].refCount
    {
      SeenRow(s.newTable, id, 0, NEW_BUCKET_COUNT);
    }
    assert forall slot :: slot in s.newTable ==> Before(slot, NEW_BUCKET_COUNT, 0);
    if left.Keys != {} {
      var id := SomeElement(left.Keys);
      assert id in NewIds(s.info);
    }
  }

  lemma NewRow(h: Hashing, s: State, left: map<int, int>, b: int)
    requires NewSoFar(h, s, left, b, BUCKET_SIZE) && InBounds(s.newTable, NEW_BUCKET_COUNT)
    ensures NewSoFar(h, s, left, b + 1, 0)
  {
    hide Seen, SlotIn;
    forall id | id in NewIds(s.info)
      ensures |Seen(s.newTable, id, b + 1, 0)| + (if id in left then left[id] else 0) == s.info[id].refCount
    {
      SeenRow(s.newTable, id, b, NEW_BUCKET_COUNT);
    }
    assert forall slot :: slot in s.newTable ==> (Before(slot, b + 1, 0) <==> Before(slot, b, BUCKET_SIZE));
  }

  /** The references every new entry must have. */
  function Required(info: map<int, Info>): map<int, int> {
    map id | id in info && !info[id].inTried :: info[id].refCount
  }

  lemma NewStart(h: Hashing, s: State)
    requires InBounds(s.newTable, NEW_BUCKET_COUNT) && forall id :: id in s.info ==> EntryPasses(s, id)
    ensures NewSoFar(h, s, Required(s.info), 0, 0)
  {
    hide Seen, SlotIn;
    forall id | id in NewIds(s.info) ensures |Seen(s.newTable, id, 0, 0)| == 0 && s.info[id].refCount > 0 {
      SeenRow(s.newTable, id, 0, NEW_BUCKET_COUNT);
      assert EntryPasses(s, id);
    }
  }

  /** The loop over the new table. */
  method CheckNew(m: AddrManager, required: map<int, int>) returns (r: int, mapNew: map<int, int>)
    requires m.Shaped() && required == Required(m.mapInfo)
    requires forall id :: id in m.mapInfo ==> EntryPasses(m.Contents(), id)
    ensures r == 0 && mapNew.Keys == {} <==> NewPasses(m.h, m.Contents())
  {
    hide TableOf, NewSoFar, NewPasses, InBounds, Position, EntryPasses;
    ghost var s := m.Contents();
    TableBounds(m.vvNew);
    NewStart(m.h, s);
    mapNew := required;
    var n := 0;
    while n < NEW_BUCKET_COUNT
      invariant 0 <= n <= NEW_BUCKET_COUNT && NewSoFar(m.h, s, mapNew, n, 0)
    {
      var i := 0;
      while i < BUCKET_SIZE
        invariant 0 <= i <= BUCKET_SIZE && NewSoFar(m.h, s, mapNew, n, i)
      {
        TableAt(m.vvNew, n, i);
        var id := m.vvNew[n, i];
        if id != -1 {
          if id !in mapNew {
            NewTooOften(m.h, s, mapNew, n, i);
            r := -12;
            return;
          }
          NewMet(m.h, s, mapNew, n, i);
          if Position(m.h, m.nKey, true, n, m.mapInfo[id].service) != i {
            NewMisplaced(m.h, s, (n, i));
            r := -19;
            return;
          }
          ghost var before := mapNew;
          mapNew := mapNew[id := mapNew[id] - 1];
          if mapNew[id] == 0 {
            mapNew := mapNew - {id};
          }
          assert mapNew == Ticked(before, id);
        } else {
          NewFree(m.h, s, mapNew, n, i);
        }
        i := i + 1;
      }
      NewRow(m.h, s, mapNew, n);
      n := n + 1;
    }
    NewDone(m.h, s, mapNew);
    r := 0;
  }

  lemma NewMisplaced(h: Hashing, s: State, slot: Slot)
    requires slot in s.newTable && s.newTable[slot] in s.info && slot != SlotIn(h, s.key, slot.0, s.info[s.newTable[slot]].service)
    ensures !NewPasses(h, s)
  {
    hide SlotIn;
  }

  /** The index after some look-ups: an address that was missing may have been entered, with 0. */
  predicate Probed(a: map<NetAddr, int>, b: map<NetAddr, int>) {
    (forall ip :: ip in a ==> ip in b) && (forall ip :: ip in b ==> b[ip] == if ip in a then a[ip] else 0)
  }

  /** Looking addresses up does not change what the check makes of a state. */
  lemma ProbedSame(h: Hashing, s: State, addr: map<NetAddr, int>)
    requires Probed(s.addr, addr)
    ensures var r := s.(addr := addr);
            && (TriedPasses(h, r) <==> TriedPasses(h, s)) && (NewPasses(h, r) <==> NewPasses(h, s))
            && (forall id :: id in s.info ==> (EntryPasses(r, id) <==> EntryPasses(s, id)))
  {
    hide TriedSlot, SlotIn, Holding, TriedIds, NewIds;
  }

  /** The checks of one entry; looking its address up enters it if it is missing. */
  method CheckEntry(m: AddrManager, id: int) returns (r: int)
    requires id in m.mapInfo
    modifies m`mapAddr
    ensures r == 0 <==> EntryPasses(old(m.Contents()), id)
    ensures Probed(old(m.mapAddr), m.mapAddr)
    ensures forall ip :: ip in m.mapAddr ==> ip in old(m.mapAddr) || ip == m.mapInfo[id].service.ip
  {
    hide TableOf;
    var info := m.mapInfo[id];
    if info.inTried {
      if info.lastSuccess == 0 { return -1; }
      if info.refCount != 0 { return -2; }
    } else {
      if info.refCount < 0 || info.refCount > NEW_BUCKETS_PER_ADDRESS { return -3; }
      if info.refCount == 0 { return -4; }
    }
    if info.service.ip !in m.mapAddr {
      m.mapAddr := m.mapAddr[info.service.ip := 0];
    }
    if m.mapAddr[info.service.ip] != id { return -5; }
    if info.randomPos < 0 || info.randomPos >= |m.vRandom| || m.vRandom[info.randomPos] != id { return -14; }
    if info.lastTry < 0 { return -6; }
    if info.lastSuccess < 0 { return -8; }
    return 0;
  }

  /** No address is in the index that neither was there nor belongs to an entry. */
  predicate OnlyOwn(info: map<int, Info>, a: map<NetAddr, int>, b: map<NetAddr, int>) {
    forall ip :: ip in b && ip !in a ==> exists id :: id in info && info[id].service.ip == ip
  }

  /** The loop over all entries, which also collects the tried ones and the references of the new ones. */
  method CheckEntries(m: AddrManager) returns (r: int, setTried: set<int>, mapNew: map<int, int>)
    modifies m`mapAddr
    ensures r == 0 <==> forall id :: id in m.mapInfo ==> EntryPasses(old(m.Contents()), id)
    ensures r == 0 ==> setTried == TriedIds(m.mapInfo) && mapNew == Required(m.mapInfo)
    ensures Probed(old(m.mapAddr), m.mapAddr) && OnlyOwn(m.mapInfo, old(m.mapAddr), m.mapAddr)
  {
    hide TableOf, EntryPasses;
    ghost var s := m.Contents();
    setTried, mapNew := {}, map[];
    var todo := m.mapInfo.Keys;
    while todo != {}
      invariant todo <= m.mapInfo.Keys
      invariant Probed(s.addr, m.mapAddr) && OnlyOwn(m.mapInfo, s.addr, m.mapAddr)
      invariant forall id :: id in m.mapInfo && id !in todo ==> EntryPasses(s, id)
      invariant forall id :: id in setTried <==> id in m.mapInfo && id !in todo && m.mapInfo[id].inTried
      invariant forall id :: id in mapNew <==> id in m.mapInfo && id !in todo && !m.mapInfo[id].inTried
      invariant forall id :: id in mapNew ==> mapNew[id] == m.mapInfo[id].refCount
      decreases |todo|
    {
      ghost var some := SomeElement(todo);
      var id :| id in todo;
      ProbedSame(m.h, s, m.mapAddr);
      r := CheckEntry(m, id);
      if r != 0 {
        return;
      }
      if m.mapInfo[id].inTried {
        setTried := setTried + {id};
      } else {
        mapNew := mapNew[id := m.mapInfo[id].refCount];
      }
      todo := todo - {id};
    }
    r := 0;
    Collected(m.mapInfo, setTried, mapNew);
  }

  lemma Collected(info: map<int, Info>, setTried: set<int>, mapNew: map<int, int>)
    requires forall id :: id in setTried <==> id in info && info[id].inTried
    requires forall id :: id in mapNew <==> id in info && !info[id].inTried
    requires forall id :: id in mapNew ==> mapNew[id] == info[id].refCount
    ensures setTried == TriedIds(info) && mapNew == Required(info)
  {
    forall id ensures id in setTried <==> id in TriedIds(info) {
      assert id in setTried <==> id in info && info[id].inTried;
    }
    forall id ensures id in mapNew <==> id in Required(info) {
      assert id in mapNew <==> id in info && !info[id].inTried;
    }
    assert mapNew.Keys == Required(info).Keys;
    assert forall id :: id in mapNew ==> mapNew[id] == Required(info)[id];
    assert mapNew == Required(info);
    assert setTried == TriedIds(info);
  }

  lemma RequiredKeys(info: map<int, Info>)
    ensures Required(info).Keys == NewIds(info)
  {
  }

  /** `Check_`: zero exactly if every check passes. The only change it makes is to enter missing addresses of entries. */
  method Check(m: AddrManager) returns (r: int)
    requires m.Shaped()
    modifies m`mapAddr
    ensures r == 0 <==> CheckPasses(m.h, old(m.Contents()))
    ensures Probed(old(m.mapAddr), m.mapAddr) && OnlyOwn(m.mapInfo, old(m.mapAddr), m.mapAddr)
  {
    hide TableOf, EntryPasses, TriedPasses, NewPasses, TriedIds, NewIds, Required;
    ghost var s := m.Contents();
    if |m.vRandom| != m.nTried + m.nNew { return -7; }
    var code, setTried, mapNew := CheckEntries(m);
    if code != 0 { return code; }
    ProbedSame(m.h, s, m.mapAddr);
    RequiredKeys(m.mapInfo);
    if |setTried| != m.nTried { return -9; }
    if |mapNew.Keys| != m.nNew { return -10; }
    code, setTried := CheckTried(m, setTried);
    if code != 0 { return code; }
    code, mapNew := CheckNew(m, mapNew);
    if code != 0 { return code; }
    if setTried != {} { return -13; }
    if mapNew.Keys != {} { return -15; }
    if m.nKey == 0 { return -16; }
    return 0;
  }

  lemma SteadyCheck(h: Hashing, s: State)
    requires Steady(h, s) && s.key != 0
    ensures CheckPasses(h, s) <==> TimesOk(s)
  {
    hide Midway, AddrOk, TimesOk, CheckPasses, Unchecked;
    InvRandom(h, s);
    CheckExactly(h, s);
  }

  lemma ProbedNothing(s: State, addr: map<NetAddr, int>)
    requires AddrOk(s) && Probed(s.addr, addr) && OnlyOwn(s.info, s.addr, addr)
    ensures addr == s.addr
  {
    forall ip | ip in addr ensures ip in s.addr && addr[ip] == s.addr[ip] {
      assert (exists id :: id in s.info && s.info[id].service.ip == ip) ==> ip in s.addr;
    }
    assert forall ip :: ip in s.addr ==> ip in addr;
    assert addr == s.addr;
  }

  /** A manager in any state of any run passes its own check exactly if its times make sense, and is not changed by it. */
  method CheckValid(m: AddrManager) returns (r: int)
    requires m.Valid() && m.nKey != 0
    modifies m`mapAddr
    ensures r == 0 <==> TimesOk(m.Contents())
    ensures m.Valid() && m.Contents() == old(m.Contents())
  {
    hide Midway, AddrOk, TimesOk, TableOf, CheckPasses, Unchecked, Probed, OnlyOwn;
    ghost var s := m.Contents();
    SteadyCheck(m.h, s);
    r := Check(m);
    ProbedNothing(s, m.mapAddr);
  }
}
