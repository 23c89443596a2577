/** Reading an address manager back from its file (`CAddrMan::Unserialize`, src/addrman.h). */
module AddrManStore {
  import opened AddrMan
  import opened AddrManSteps
  import opened AddrManOps

  /** What is written of an entry: not the time of the last try, and nothing the tables determine. */
  datatype Record = Record(service: Service, services: Services, time: nat, source: NetAddr, lastSuccess: int, attempts: int)

  /** The file; the counts it starts with are the lengths of the three lists. */
  datatype File = File(version: int, key: Key, entries: seq<Record>, triedEntries: seq<Record>, buckets: seq<seq<int>>) {
    /** Can the positions in the new table be used? */
    predicate Usable() {
      version == 1 && |buckets| == NEW_BUCKET_COUNT
    }
  }

  function InfoOf(r: Record): Info {
    Info(r.service, r.services, r.time, r.source, r.lastSuccess, 0, r.attempts, 0, false, -1)
  }

  // ---------------------------------------------------------------- loading

  function FirstSlot(h: Hashing, key: Key, r: Record): Slot {
    NewSlot(h, key, r.service, r.source)
  }

  /** Enter a new entry; without usable positions it gets a reference where its own source puts it, if that is free. */
  function LoadNewOne(h: Hashing, s: State, r: Record, usable: bool): State {
    var t := Admitted(s, InfoOf(r));
    var u := t.(nNew := t.nNew + 1);
    if !usable && FirstSlot(h, s.key, r) !in s.newTable then Referenced(u, FirstSlot(h, s.key, r), s.idCount) else u
  }

  /** The state after the first `k` new entries. */
  function LoadNew(h: Hashing, f: File, k: nat): State
    requires k <= |f.entries|
  {
    if k == 0 then Empty(f.key) else LoadNewOne(h, LoadNew(h, f, k - 1), f.entries[k - 1], f.Usable())
  }

  /** Enter a tried entry, unless another one already has its slot. */
  function LoadTriedOne(h: Hashing, s: State, r: Record): State {
    if TriedSlot(h, s.key, r.service) in s.triedTable then s
    else Promoted(h, Admitted(s, InfoOf(r)), s.idCount)
  }

  function LoadTried(h: Hashing, f: File, k: nat): State
    requires k <= |f.triedEntries|
  {
    if k == 0 then LoadNew(h, f, |f.entries|) else LoadTriedOne(h, LoadTried(h, f, k - 1), f.triedEntries[k - 1])
  }

  /** Enter a reference from the file, if its index means a new entry, the slot is free and the entry has room. */
  function LoadIndex(h: Hashing, s: State, bucket: int, index: int, count: int, usable: bool): State {
    if 0 <= index < count && index in s.info && usable then
      var slot := SlotIn(h, s.key, bucket, s.info[index].service);
      if slot !in s.newTable && s.info[index].refCount < NEW_BUCKETS_PER_ADDRESS then Referenced(s, slot, index) else s
    else s
  }

  function LoadBucket(h: Hashing, s: State, bucket: int, indices: seq<int>, k: nat, count: int, usable: bool): State
    requires k <= |indices|
  {
    if k == 0 then s
    else LoadIndex(h, LoadBucket(h, s, bucket, indices, k - 1, count, usable), bucket, indices[k - 1], count, usable)
  }

  function LoadBuckets(h: Hashing, f: File, b: nat): State
    requires b <= |f.buckets|
  {
    if b == 0 then LoadTried(h, f, |f.triedEntries|)
    else LoadBucket(h, LoadBuckets(h, f, b - 1), b - 1, f.buckets[b - 1], |f.buckets[b - 1]|, |f.entries|, f.Usable())
  }

  /** The new entries that have no reference. */
  function Idle(s: State): set<int> {
    set id | id in s.info && !s.info[id].inTried && s.info[id].refCount == 0
  }

  /** The invariant while a file is being read. */
  ghost predicate Loading(h: Hashing, s: State) {
    Midway(h, s, Idle(s), 0)
  }

  lemma LimboIsIdle(h: Hashing, s: State, limbo: set<int>, extra: int)
    requires Midway(h, s, limbo, extra)
    ensures limbo == Idle(s) && forall id :: id in limbo ==> 0 <= id < s.idCount
  {
    forall id ensures id in limbo <==> id in Idle(s) {
      if id in s.info {
        assert EntryOk(h, s, id, id in limbo);
      }
    }
  }

  function From(ids: set<int>, k: int): set<int> {
    set id | id in ids && id >= k
  }

  lemma FromStep(ids: set<int>, k: int)
    ensures From(ids, k + 1) == From(ids, k) - {k}
  {
  }

  /** Drop an entry if it has no reference. */
  ghost function PruneOne(h: Hashing, s: State, id: int): (r: State)
    requires Loading(h, s)
    ensures Loading(h, r) && Idle(r) == Idle(s) - {id} && r.idCount == s.idCount
  {
    if id in s.info && !s.info[id].inTried && s.info[id].refCount == 0 then
      PruneOneKeeps(h, s, id);
      Deleted(s, id)
    else s
  }

  lemma PruneOneKeeps(h: Hashing, s: State, id: int)
    requires Loading(h, s) && id in Idle(s)
    ensures IndexOk(s) && id in s.info
    ensures var r := Deleted(s, id); Loading(h, r) && Idle(r) == Idle(s) - {id} && r.idCount == s.idCount
  {
    hide IndexOk, NewTableOk, TriedTableOk, EntriesOk, CountsOk, Deleted;
    DeletedMidway(h, s, id, Idle(s), 0);
    LimboIsIdle(h, Deleted(s, id), Idle(s) - {id}, 0);
    DeletedRest(s, id);
  }

  /** Drop the entries below `k` that got no reference. */
  ghost function Pruned(h: Hashing, s: State, k: nat): (r: State)
    requires Loading(h, s)
    ensures Loading(h, r) && Idle(r) == From(Idle(s), k) && r.idCount == s.idCount
  {
    if k == 0 then
      LimboIsIdle(h, s, Idle(s), 0);
      assert From(Idle(s), 0) == Idle(s);
      s
    else
      FromStep(Idle(s), k - 1);
      PruneOne(h, Pruned(h, s, k - 1), k - 1)
  }

  /** The state before the entries without a reference are dropped. */
  function Unpruned(h: Hashing, f: File): State {
    LoadBuckets(h, f, |f.buckets|)
  }

  /** `Unserialize` into a manager that was just constructed. */
  ghost function Loaded(h: Hashing, f: File): State {
    LoadBucketsKeeps(h, f, |f.buckets|);
    Pruned(h, Unpruned(h, f), Unpruned(h, f).idCount)
  }

  // ---------------------------------------------------------------- what loading keeps, whatever the file says

  /** The first `n` ids belong to new entries. */
  ghost predicate NewBelow(s: State, n: int) {
    forall id :: 0 <= id < n ==> id in s.info && !s.info[id].inTried
  }

  lemma LoadNewOneMidway(h: Hashing, s: State, r: Record, usable: bool)
    requires Loading(h, s)
    ensures Loading(h, LoadNewOne(h, s, r, usable)) && s.idCount !in s.info
  {
    hide Midway, NewSlot;
    AdmittedMidway(h, s, InfoOf(r), Idle(s), 0);
    var t := Admitted(s, InfoOf(r));
    Recount(h, t, t.nNew + 1, Idle(s) + {s.idCount}, 1);
    var u := t.(nNew := t.nNew + 1);
    LimboIsIdle(h, u, Idle(s) + {s.idCount}, 0);
    var slot := FirstSlot(h, s.key, r);
    if !usable && slot !in s.newTable {
      NewSlotShape(h, s.key, r.service, r.source);
      ReferencedMidway(h, u, slot, s.idCount, Idle(u), 0);
      LimboIsIdle(h, Referenced(u, slot, s.idCount), Idle(u) - {s.idCount}, 0);
    }
  }

  lemma {:induction false} LoadNewKeeps(h: Hashing, f: File, k: nat)
    requires k <= |f.entries|
    ensures var s := LoadNew(h, f, k);
            Loading(h, s) && s.key == f.key && s.idCount == k && NewBelow(s, k)
  {
    hide Loading, LoadNewOne;
    if k == 0 {
      EmptyInv(h, f.key);
      LimboIsIdle(h, Empty(f.key), {}, 0);
      assert Loading(h, Empty(f.key)) by { LoadingDef(h, Empty(f.key)); }
    } else {
      LoadNewKeeps(h, f, k - 1);
      var s, r := LoadNew(h, f, k - 1), f.entries[k - 1];
      LoadNewOneMidway(h, s, r, f.Usable());
      LoadNewOneFields(h, s, r, f.Usable());
    }
  }

  lemma LoadingDef(h: Hashing, s: State)
    requires Midway(h, s, Idle(s), 0)
    ensures Loading(h, s)
  {
  }

  lemma LoadNewOneFields(h: Hashing, s: State, r: Record, usable: bool)
    ensures var t := LoadNewOne(h, s, r, usable);
            && t.key == s.key && t.idCount == s.idCount + 1 && t.addr == s.addr[r.service.ip := s.idCount]
            && t.triedTable == s.triedTable && t.random == s.random + [s.idCount]
            && s.idCount in t.info && !t.info[s.idCount].inTried
            && (forall id :: id in s.info && id != s.idCount ==> id in t.info && t.info[id] == s.info[id])
  {
    hide NewSlot;
  }

  lemma LoadTriedOneMidway(h: Hashing, s: State, r: Record)
    requires Loading(h, s)
    ensures Loading(h, LoadTriedOne(h, s, r)) && s.idCount !in s.info
  {
    hide Midway, TriedSlot;
    AdmittedMidway(h, s, InfoOf(r), Idle(s), 0);
    if TriedSlot(h, s.key, r.service) !in s.triedTable {
      var t := Admitted(s, InfoOf(r));
      PromotedMidway(h, t, s.idCount, Idle(s) + {s.idCount}, 1);
      LimboIsIdle(h, Promoted(h, t, s.idCount), Idle(s) + {s.idCount} - {s.idCount}, 0);
    }
  }

  lemma LoadTriedOneFields(h: Hashing, s: State, r: Record)
    ensures var t := LoadTriedOne(h, s, r);
            && t.key == s.key && t.newTable == s.newTable && t.idCount >= s.idCount
            && (t.addr == s.addr || t.addr == s.addr[r.service.ip := s.idCount])
            && (forall id :: id in s.info && id != s.idCount ==> id in t.info && t.info[id] == s.info[id])
  {
    hide TriedSlot;
  }

  lemma {:induction false} LoadTriedKeeps(h: Hashing, f: File, k: nat)
    requires k <= |f.triedEntries|
    ensures var s := LoadTried(h, f, k);
            && Loading(h, s) && s.key == f.key && s.idCount >= |f.entries|
            && NewBelow(s, |f.entries|)
  {
    hide Loading, LoadTriedOne;
    if k == 0 {
      LoadNewKeeps(h, f, |f.entries|);
    } else {
      LoadTriedKeeps(h, f, k - 1);
      var s, r := LoadTried(h, f, k - 1), f.triedEntries[k - 1];
      LoadTriedOneMidway(h, s, r);
      LoadTriedOneFields(h, s, r);
    }
  }

  /** What reading a bucket relies on and keeps. */
  ghost predicate Ready(h: Hashing, s: State, count: int) {
    Loading(h, s) && NewBelow(s, count)
  }

  /** Nothing differs but the new table and the reference counts. */
  ghost predicate OnlyReferences(s: State, r: State) {
    && r == s.(newTable := r.newTable, info := r.info)
    && (forall id :: id in s.info <==> id in r.info)
    && forall id :: id in s.info ==> r.info[id] == s.info[id].(refCount := r.info[id].refCount)
  }

  lemma LoadIndexReady(h: Hashing, s: State, bucket: int, index: int, count: int, usable: bool)
    requires Ready(h, s, count) && 0 <= bucket < NEW_BUCKET_COUNT
    ensures var r := LoadIndex(h, s, bucket, index, count, usable);
            Ready(h, r, count) && OnlyReferences(s, r)
  {
    hide Midway;
    if 0 <= index < count && usable {
      var slot := SlotIn(h, s.key, bucket, s.info[index].service);
      if slot !in s.newTable && s.info[index].refCount < NEW_BUCKETS_PER_ADDRESS {
        ReferencedMidway(h, s, slot, index, Idle(s), 0);
        LimboIsIdle(h, Referenced(s, slot, index), Idle(s) - {index}, 0);
        assert Referenced(s, slot, index).info.Keys == s.info.Keys;
      }
    }
  }

  lemma {:induction false} LoadBucketReady(h: Hashing, s: State, bucket: int, indices: seq<int>, k: nat, count: int, usable: bool)
    requires Ready(h, s, count) && k <= |indices| && (usable ==> 0 <= bucket < NEW_BUCKET_COUNT)
    ensures var r := LoadBucket(h, s, bucket, indices, k, count, usable);
            Ready(h, r, count) && OnlyReferences(s, r)
  {
    hide Ready;
    if k > 0 {
      LoadBucketReady(h, s, bucket, indices, k - 1, count, usable);
      if usable {
        hide LoadIndex;
        LoadIndexReady(h, LoadBucket(h, s, bucket, indices, k - 1, count, usable), bucket, indices[k - 1], count, usable);
      }
    }
  }

  lemma {:induction false} LoadBucketsKeeps(h: Hashing, f: File, b: nat)
    requires b <= |f.buckets|
    ensures var s, t := LoadBuckets(h, f, b), LoadTried(h, f, |f.triedEntries|);
            && Ready(h, s, |f.entries|) && OnlyReferences(t, s)
            && s.idCount >= 0
  {
    hide LoadTried, LoadBucket, Loading;
    if b == 0 {
      LoadTriedKeeps(h, f, |f.triedEntries|);
    } else {
      LoadBucketsKeeps(h, f, b - 1);
      LoadBucketReady(h, LoadBuckets(h, f, b - 1), b - 1, f.buckets[b - 1], |f.buckets[b - 1]|, |f.entries|, f.Usable());
    }
  }

  /** Whatever the file says, the manager read from it is consistent but for the address index and the times. */
  lemma LoadedSettled(h: Hashing, f: File)
    ensures Settled(h, Loaded(h, f)) && Loading(h, Unpruned(h, f))
  {
    hide Midway, LoadBuckets, Pruned;
    LoadBucketsKeeps(h, f, |f.buckets|);
    var s := Unpruned(h, f);
    LimboIsIdle(h, s, Idle(s), 0);
    assert From(Idle(s), s.idCount) == {};
  }
}
