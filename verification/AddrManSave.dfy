/** Writing an address manager to a file, and what reading it back restores (`CAddrMan::Serialize`, src/addrman.h). */
module AddrManSave {
  import opened Common
  import opened AddrMan
  import opened AddrManSteps
  import opened AddrManStore
  import opened AddrManLoad

  // ---------------------------------------------------------------- what is written

  /** Is an entry written with the tried ones, or with the new ones? */
  predicate Picks(i: Info, tried: bool) {
    if tried then i.inTried else i.refCount != 0
  }

  /** The ids below `n` in one of the two groups, in the order of the map. */
  function Listing(info: map<int, Info>, tried: bool, n: nat): seq<int> {
    if n == 0 then []
    else Listing(info, tried, n - 1) + if n - 1 in info && Picks(info[n - 1], tried) then [n - 1] else []
  }

  /** The index an entry gets in the file. */
  function Rank(info: map<int, Info>, tried: bool, id: int): nat {
    |Listing(info, tried, if id < 0 then 0 else id)|
  }

  function RecordOf(i: Info): Record {
    Record(i.service, i.services, i.time, i.source, i.lastSuccess, i.attempts)
  }

  predicate AllIn(info: map<int, Info>, ids: seq<int>) {
    forall k :: 0 <= k < |ids| ==> ids[k] in info
  }

  function Records(info: map<int, Info>, ids: seq<int>): (r: seq<Record>)
    requires AllIn(info, ids)
    ensures |r| == |ids|
  {
    seq(|ids|, k requires 0 <= k < |ids| => RecordOf(info[ids[k]]))
  }

  /** The indices of the entries in the first `k` positions of a bucket. */
  function BucketList(s: State, b: int, k: nat): seq<int> {
    if k == 0 then []
    else BucketList(s, b, k - 1) + if (b, k - 1) in s.newTable then [Rank(s.info, false, s.newTable[(b, k - 1)])] else []
  }

  lemma {:induction false} ListingMembers(info: map<int, Info>, tried: bool, n: nat)
    ensures forall k :: 0 <= k < |Listing(info, tried, n)| ==>
      var id := Listing(info, tried, n)[k]; 0 <= id < n && id in info && Picks(info[id], tried) && Rank(info, tried, id) == k
  {
    if n > 0 {
      ListingMembers(info, tried, n - 1);
    }
  }

  lemma {:induction false} ListingAt(info: map<int, Info>, tried: bool, n: nat, id: int)
    requires 0 <= id < n && id in info && Picks(info[id], tried)
    ensures Rank(info, tried, id) < |Listing(info, tried, n)| && Listing(info, tried, n)[Rank(info, tried, id)] == id
    decreases n
  {
    if id < n - 1 {
      ListingAt(info, tried, n - 1, id);
    }
  }

  function Below(info: map<int, Info>, tried: bool, n: int): set<int> {
    set id | id in info && 0 <= id < n && Picks(info[id], tried)
  }

  lemma {:induction false} ListingCount(info: map<int, Info>, tried: bool, n: nat)
    ensures |Listing(info, tried, n)| == |Below(info, tried, n)|
  {
    if n == 0 {
      assert Below(info, tried, 0) == {};
    } else {
      ListingCount(info, tried, n - 1);
      if n - 1 in info && Picks(info[n - 1], tried) {
        assert Below(info, tried, n) == Below(info, tried, n - 1) + {n - 1};
      } else {
        assert Below(info, tried, n) == Below(info, tried, n - 1);
      }
    }
  }

  ghost function NewList(s: State): seq<int>
    requires IndexOk(s)
  {
    Listing(s.info, false, s.idCount)
  }

  ghost function TriedList(s: State): seq<int>
    requires IndexOk(s)
  {
    Listing(s.info, true, s.idCount)
  }

  /** `Serialize`. */
  ghost function Saved(s: State): File
    requires IndexOk(s)
  {
    ListingMembers(s.info, false, s.idCount);
    ListingMembers(s.info, true, s.idCount);
    File(1, s.key, Records(s.info, NewList(s)), Records(s.info, TriedList(s)),
         seq(NEW_BUCKET_COUNT, b requires 0 <= b < NEW_BUCKET_COUNT => BucketList(s, b, BUCKET_SIZE)))
  }

  lemma PicksRight(h: Hashing, s: State, id: int)
    requires Settled(h, s) && id in s.info
    ensures Picks(s.info[id], true) <==> s.info[id].inTried
    ensures Picks(s.info[id], false) <==> !s.info[id].inTried
  {
    assert EntryOk(h, s, id, false);
  }

  /** The counts written first are the counters: the assertions while writing hold. */
  lemma SavedCounts(h: Hashing, s: State)
    requires Settled(h, s)
    ensures |Saved(s).entries| == s.nNew && |Saved(s).triedEntries| == s.nTried
  {
    ListingCount(s.info, false, s.idCount);
    ListingCount(s.info, true, s.idCount);
    forall id | id in s.info
      ensures (Picks(s.info[id], true) <==> s.info[id].inTried) && (Picks(s.info[id], false) <==> !s.info[id].inTried)
    {
      PicksRight(h, s, id);
    }
    assert Below(s.info, false, s.idCount) == NewIds(s.info);
    assert Below(s.info, true, s.idCount) == TriedIds(s.info);
  }

  // ---------------------------------------------------------------- old and new ids

  ghost function Total(s: State): nat
    requires IndexOk(s)
  {
    |NewList(s)| + |TriedList(s)|
  }

  /** The id an entry has after the file was read back: new entries first. */
  ghost function Renamed(s: State, id: int): int
    requires IndexOk(s) && id in s.info
  {
    if s.info[id].inTried then |NewList(s)| + Rank(s.info, true, id) else Rank(s.info, false, id)
  }

  /** The entry that had the `n`-th place in the file. */
  ghost function Old(s: State, n: int): int
    requires IndexOk(s) && 0 <= n < Total(s)
  {
    if n < |NewList(s)| then NewList(s)[n] else TriedList(s)[n - |NewList(s)|]
  }

  lemma OldRenamed(h: Hashing, s: State, id: int)
    requires Settled(h, s) && id in s.info
    ensures 0 <= Renamed(s, id) < Total(s) && Old(s, Renamed(s, id)) == id
    ensures s.info[id].inTried <==> Renamed(s, id) >= |NewList(s)|
  {
    hide Listing;
    PicksRight(h, s, id);
    ListingAt(s.info, s.info[id].inTried, s.idCount, id);
  }

  lemma RenamedOld(h: Hashing, s: State, n: int)
    requires Settled(h, s) && 0 <= n < Total(s)
    ensures Old(s, n) in s.info && Renamed(s, Old(s, n)) == n
    ensures s.info[Old(s, n)].inTried <==> n >= |NewList(s)|
  {
    hide Listing;
    ListingMembers(s.info, false, s.idCount);
    ListingMembers(s.info, true, s.idCount);
    PicksRight(h, s, Old(s, n));
  }

  lemma SavedRecord(h: Hashing, s: State, n: int)
    requires Settled(h, s) && 0 <= n < Total(s)
    ensures var f := Saved(s);
            && |f.entries| == |NewList(s)| && |f.triedEntries| == |TriedList(s)|
            && Old(s, n) in s.info && RecordAt(f, n) == RecordOf(s.info[Old(s, n)])
  {
    hide Listing, BucketList;
    RenamedOld(h, s, n);
  }

  /** No address is written twice, and the times that are written make sense if the entries' do. */
  lemma SavedSane(h: Hashing, s: State)
    requires Steady(h, s)
    ensures Saved(s).Usable() && NoRepeats(h, Saved(s), Count(Saved(s)))
    ensures TimesOk(s) ==> SaneTimes(h, Saved(s), Count(Saved(s)))
  {
    hide IndexOk, NewTableOk, TriedTableOk, EntriesOk, CountsOk, Saved, NewList, TriedList, RecordAt, Enters, Old;
    var f := Saved(s);
    SavedShape(s);
    forall i, j | 0 <= i < j < Count(f) ensures IpAt(f, i) != IpAt(f, j) {
      SavedRecord(h, s, i);
      SavedRecord(h, s, j);
      RenamedOld(h, s, i);
      RenamedOld(h, s, j);
    }
    if TimesOk(s) {
      forall i | 0 <= i < Count(f) ensures RecordAt(f, i).lastSuccess >= if i < |f.entries| then 0 else 1 {
        SavedRecord(h, s, i);
        RenamedOld(h, s, i);
        assert TimeOk(s.info[Old(s, i)]);
      }
    }
  }

  lemma SavedShape(s: State)
    requires IndexOk(s)
    ensures var f := Saved(s);
            |f.entries| == |NewList(s)| && |f.triedEntries| == |TriedList(s)| && f.Usable() && f.key == s.key
  {
    hide Listing, BucketList;
  }

  lemma RecordAtNew(f: File, i: int)
    requires 0 <= i < |f.entries|
    ensures RecordAt(f, i) == f.entries[i]
  {
  }

  lemma RecordAtTried(f: File, i: int)
    requires 0 <= i < |f.triedEntries|
    ensures RecordAt(f, |f.entries| + i) == f.triedEntries[i]
  {
  }

  // ---------------------------------------------------------------- the entries come back

  /** Entry `n` of `r` is the one it was in `s`, but for its references, its place in the random order and its last try. */
  ghost predicate Back(s: State, r: State, n: int)
    requires IndexOk(s) && 0 <= n < Total(s)
  {
    && n in r.info && Old(s, n) in s.info
    && r.info[n] == s.info[Old(s, n)].(lastTry := 0, refCount := r.info[n].refCount, randomPos := r.info[n].randomPos)
  }

  /** The first `m` entries are back, and nothing else is there. */
  ghost predicate AllBack(s: State, r: State, m: int)
    requires IndexOk(s) && 0 <= m <= Total(s)
  {
    && r.key == s.key && r.idCount == m && r.newTable == map[]
    && (forall n :: n in r.info ==> 0 <= n < m)
    && (forall n :: 0 <= n < m ==> Back(s, r, n))
  }

  lemma LoadNewBackStep(h: Hashing, s: State, q: State, m: int)
    requires Settled(h, s) && 0 <= m < |NewList(s)| && AllBack(s, q, m)
    ensures Old(s, m) in s.info
    ensures AllBack(s, LoadNewOne(h, q, RecordOf(s.info[Old(s, m)]), true), m + 1)
  {
    hide NewTableOk, TriedTableOk, EntriesOk, CountsOk, NewList, TriedList, Old, NewSlot;
    RenamedOld(h, s, m);
    var r := LoadNewOne(h, q, RecordOf(s.info[Old(s, m)]), true);
    forall n | 0 <= n < m + 1 ensures Back(s, r, n) {
      assert n < m ==> Back(s, q, n);
    }
  }

  lemma {:induction false} LoadNewBack(h: Hashing, s: State, k: nat)
    requires Settled(h, s) && k <= |Saved(s).entries|
    ensures k <= Total(s) && AllBack(s, LoadNew(h, Saved(s), k), k)
  {
    hide IndexOk, NewTableOk, TriedTableOk, EntriesOk, CountsOk, Saved, NewList, TriedList, Old, LoadNewOne;
    SavedShape(s);
    if k > 0 {
      hide AllBack;
      LoadNewBack(h, s, k - 1);
      SavedRecord(h, s, k - 1);
      RecordAtNew(Saved(s), k - 1);
      LoadNewBackStep(h, s, LoadNew(h, Saved(s), k - 1), k - 1);
    }
  }

  /** Two tried entries never have the same slot, so none is lost. */
  lemma NoTriedLost(h: Hashing, s: State, r: State, m: int)
    requires Settled(h, s) && |NewList(s)| <= m < Total(s) && AllBack(s, r, m) && TriedTableOk(h, r)
    ensures Old(s, m) in s.info && TriedSlot(h, r.key, s.info[Old(s, m)].service) !in r.triedTable
  {
    RenamedOld(h, s, m);
    hide NewTableOk, CountsOk, TriedSlot, NewList, TriedList, Old;
    var id := Old(s, m);
    var slot := TriedSlot(h, s.key, s.info[id].service);
    assert EntryOk(h, s, id, false);
    if slot in r.triedTable {
      var n := r.triedTable[slot];
      assert Back(s, r, n);
      RenamedOld(h, s, n);
      assert false;
    }
  }

  lemma LoadTriedBackStep(h: Hashing, s: State, q: State, m: int)
    requires Settled(h, s) && |NewList(s)| <= m < Total(s) && AllBack(s, q, m) && TriedTableOk(h, q)
    ensures Old(s, m) in s.info
    ensures var r := LoadTriedOne(h, q, RecordOf(s.info[Old(s, m)]));
            AllBack(s, r, m + 1) && r.nTried == q.nTried + 1 && r.nNew == q.nNew
  {
    hide NewTableOk, TriedTableOk, EntriesOk, CountsOk, NewList, TriedList, Old, TriedSlot;
    NoTriedLost(h, s, q, m);
    RenamedOld(h, s, m);
    var r := LoadTriedOne(h, q, RecordOf(s.info[Old(s, m)]));
    forall n | 0 <= n < m + 1 ensures Back(s, r, n) {
      assert n < m ==> Back(s, q, n);
    }
  }

  lemma {:induction false} LoadTriedBack(h: Hashing, s: State, k: nat)
    requires Settled(h, s) && k <= |Saved(s).triedEntries|
    ensures |Saved(s).entries| + k <= Total(s) && AllBack(s, LoadTried(h, Saved(s), k), |Saved(s).entries| + k)
  {
    hide IndexOk, NewTableOk, TriedTableOk, EntriesOk, CountsOk, Saved, NewList, TriedList, Old, LoadTriedOne, AllBack;
    SavedShape(s);
    var m := |Saved(s).entries| + k;
    if k == 0 {
      LoadNewBack(h, s, |Saved(s).entries|);
    } else {
      LoadTriedBack(h, s, k - 1);
      LoadTriedKeeps(h, Saved(s), k - 1);
      SavedRecord(h, s, m - 1);
      RecordAtTried(Saved(s), k - 1);
      var q := LoadTried(h, Saved(s), k - 1);
      MidwayTried(h, q, Idle(q), 0);
      LoadTriedBackStep(h, s, q, m - 1);
    }
  }

  lemma MidwayTried(h: Hashing, s: State, limbo: set<int>, extra: int)
    requires Midway(h, s, limbo, extra)
    ensures TriedTableOk(h, s) && NewTableOk(h, s)
  {
  }

  // ---------------------------------------------------------------- the references come back

  /** The part of the new table read so far, under the new ids. */
  function Part(s: State, b: int, k: int): Table {
    map slot | slot in s.newTable && Before(slot, b, k) :: Rank(s.info, false, s.newTable[slot])
  }

  lemma SlotBounds(h: Hashing, s: State, slot: Slot)
    requires Settled(h, s) && slot in s.newTable
    ensures 0 <= slot.0 < NEW_BUCKET_COUNT && 0 <= slot.1 < BUCKET_SIZE
    ensures s.newTable[slot] in s.info && !s.info[s.newTable[slot]].inTried
    ensures slot == SlotIn(h, s.key, slot.0, s.info[s.newTable[slot]].service)
  {
  }

  lemma PartEnds(h: Hashing, s: State, b: int)
    requires Settled(h, s)
    ensures Part(s, 0, 0) == map[] && Part(s, b, BUCKET_SIZE) == Part(s, b + 1, 0)
  {
    hide Midway, Rank;
    forall slot | slot in s.newTable
      ensures !Before(slot, 0, 0) && (Before(slot, b, BUCKET_SIZE) <==> Before(slot, b + 1, 0))
    {
      SlotBounds(h, s, slot);
    }
  }

  lemma PartStep(s: State, b: int, k: int)
    ensures (b, k) !in s.newTable ==> Part(s, b, k + 1) == Part(s, b, k)
    ensures (b, k) in s.newTable ==> Part(s, b, k + 1) == Part(s, b, k)[(b, k) := Rank(s.info, false, s.newTable[(b, k)])]
    ensures (b, k) !in Part(s, b, k)
  {
    hide Rank;
    forall slot: Slot ensures Before(slot, b, k + 1) <==> Before(slot, b, k) || slot == (b, k) {
      assert slot == (slot.0, slot.1);
    }
  }

  /** New entries with the same index are the same. */
  lemma RankInjective(h: Hashing, s: State, x: int, y: int)
    requires Settled(h, s) && x in s.info && y in s.info && !s.info[x].inTried && !s.info[y].inTried
    requires Rank(s.info, false, x) == Rank(s.info, false, y)
    ensures x == y
  {
    hide Midway, Listing;
    OldRenamed(h, s, x);
    OldRenamed(h, s, y);
  }

  lemma PartHolding(h: Hashing, s: State, id: int, b: int, k: int)
    requires Settled(h, s) && id in s.info && !s.info[id].inTried
    ensures Holding(Part(s, b, k), Rank(s.info, false, id)) == set slot | slot in Holding(s.newTable, id) && Before(slot, b, k)
  {
    hide Midway, Rank;
    forall slot | slot in s.newTable && Rank(s.info, false, s.newTable[slot]) == Rank(s.info, false, id) ensures s.newTable[slot] == id {
      SlotBounds(h, s, slot);
      RankInjective(h, s, s.newTable[slot], id);
    }
  }

  /** Before its last reference is read, an entry has room for another. */
  lemma RoomLeft(h: Hashing, s: State, b: int, k: int)
    requires Settled(h, s) && (b, k) in s.newTable
    ensures |Holding(Part(s, b, k), Rank(s.info, false, s.newTable[(b, k)]))| < NEW_BUCKETS_PER_ADDRESS
  {
    var id := s.newTable[(b, k)];
    SlotBounds(h, s, (b, k));
    assert EntryOk(h, s, id, false);
    hide Midway, Rank, EntryOk;
    PartHolding(h, s, id, b, k);
    var part := Holding(Part(s, b, k), Rank(s.info, false, id));
    assert part <= Holding(s.newTable, id) - {(b, k)};
    assert (b, k) in Holding(s.newTable, id);
    SubsetSize(part, Holding(s.newTable, id) - {(b, k)});
  }

  lemma SubsetSize(a: set<Slot>, b: set<Slot>)
    requires a <= b
    ensures |a| <= |b|
  {
    assert b == a + (b - a);
  }

  /** All entries are back, and the references read so far. */
  ghost predicate Restoring(h: Hashing, s: State, r: State, b: int, k: int)
    requires IndexOk(s)
  {
    && Ready(h, r, |NewList(s)|) && r.key == s.key && r.newTable == Part(s, b, k)
    && (forall n :: 0 <= n < Total(s) ==> Back(s, r, n))
    && (forall n :: n in r.info ==> 0 <= n < Total(s))
  }

  lemma RestoreIndex(h: Hashing, s: State, r: State, b: int, k: int)
    requires Settled(h, s) && Restoring(h, s, r, b, k) && (b, k) in s.newTable
    ensures Restoring(h, s, LoadIndex(h, r, b, Rank(s.info, false, s.newTable[(b, k)]), |NewList(s)|, true), b, k + 1)
  {
    hide IndexOk, NewTableOk, TriedTableOk, EntriesOk, CountsOk, NewList, TriedList, Old, Part, SlotIn, Rank, Holding;
    var id := s.newTable[(b, k)];
    var index := Rank(s.info, false, id);
    SlotBounds(h, s, (b, k));
    OldRenamed(h, s, id);
    assert Renamed(s, id) == index;
    assert Back(s, r, index);
    PartStep(s, b, k);
    RoomLeft(h, s, b, k);
    RefCountIs(h, r, index);
    LoadIndexReady(h, r, b, index, |NewList(s)|, true);
    var t := LoadIndex(h, r, b, index, |NewList(s)|, true);
    assert t == Referenced(r, (b, k), index);
    forall n | 0 <= n < Total(s) ensures Back(s, t, n) {
      assert Back(s, r, n);
    }
  }

  lemma RefCountIs(h: Hashing, s: State, id: int)
    requires Loading(h, s) && id in s.info
    ensures s.info[id].refCount == if s.info[id].inTried then 0 else |Holding(s.newTable, id)|
  {
    assert EntryOk(h, s, id, id in Idle(s));
  }

  /** Reading a list of indices depends only on the part already read. */
  lemma {:induction false} LoadBucketPrefix(h: Hashing, s: State, b: int, xs: seq<int>, ys: seq<int>, k: nat, count: int, usable: bool)
    requires k <= |xs|
    ensures LoadBucket(h, s, b, xs + ys, k, count, usable) == LoadBucket(h, s, b, xs, k, count, usable)
  {
    hide LoadIndex;
    if k > 0 {
      LoadBucketPrefix(h, s, b, xs, ys, k - 1, count, usable);
    }
  }

  lemma {:induction false} RestoreBucket(h: Hashing, s: State, r: State, b: int, k: nat)
    requires Settled(h, s) && Restoring(h, s, r, b, 0)
    ensures var xs := BucketList(s, b, k); Restoring(h, s, LoadBucket(h, r, b, xs, |xs|, |NewList(s)|, true), b, k)
    decreases k
  {
    hide IndexOk, NewTableOk, TriedTableOk, EntriesOk, CountsOk, NewList, TriedList, Restoring, LoadIndex, Rank, Part;
    if k > 0 {
      RestoreBucket(h, s, r, b, k - 1);
      var xs := BucketList(s, b, k - 1);
      var q := LoadBucket(h, r, b, xs, |xs|, |NewList(s)|, true);
      if (b, k - 1) in s.newTable {
        var x := Rank(s.info, false, s.newTable[(b, k - 1)]);
        LoadBucketPrefix(h, r, b, xs, [x], |xs|, |NewList(s)|, true);
        RestoreIndex(h, s, q, b, k - 1);
      } else {
        assert xs + [] == xs;
        RestoreSkip(h, s, q, b, k - 1);
      }
    }
  }

  lemma RestoreSkip(h: Hashing, s: State, r: State, b: int, k: int)
    requires IndexOk(s) && Restoring(h, s, r, b, k) && (b, k) !in s.newTable
    ensures Restoring(h, s, r, b, k + 1)
  {
    hide IndexOk, Ready, NewList, TriedList, Old, Part, Back;
    PartStep(s, b, k);
  }

  lemma {:induction false} RestoreBuckets(h: Hashing, s: State, b: nat)
    requires Settled(h, s) && b <= |Saved(s).buckets|
    ensures Restoring(h, s, LoadBuckets(h, Saved(s), b), b, 0)
  {
    hide IndexOk, NewTableOk, TriedTableOk, EntriesOk, CountsOk, NewList, TriedList, LoadBucket, LoadTried, BucketList, Listing;
    SavedShape(s);
    PartEnds(h, s, b - 1);
    if b == 0 {
      LoadTriedKeeps(h, Saved(s), |Saved(s).triedEntries|);
      LoadTriedBack(h, s, |Saved(s).triedEntries|);
    } else {
      hide Restoring;
      RestoreBuckets(h, s, b - 1);
      RestoreBucket(h, s, LoadBuckets(h, Saved(s), b - 1), b - 1, BUCKET_SIZE);
      RestoreNext(h, s, LoadBuckets(h, Saved(s), b), b - 1);
    }
  }

  lemma RestoreNext(h: Hashing, s: State, r: State, b: int)
    requires Settled(h, s) && Restoring(h, s, r, b, BUCKET_SIZE)
    ensures Restoring(h, s, r, b + 1, 0)
  {
    hide IndexOk, NewTableOk, TriedTableOk, EntriesOk, CountsOk, Ready, NewList, TriedList, Old, Part, Back;
    PartEnds(h, s, b);
  }

  lemma {:induction false} PrunedNothing(h: Hashing, s: State, k: nat)
    requires Loading(h, s) && Idle(s) == {}
    ensures Pruned(h, s, k) == s
  {
    hide Loading;
    if k > 0 {
      PrunedNothing(h, s, k - 1);
      assert k - 1 !in Idle(s);
    }
  }

  // ---------------------------------------------------------------- the round trip

  /** `r` is `s` under new ids, but for the random order and the times of the last tries. */
  ghost predicate SameUpToNames(s: State, r: State)
    requires IndexOk(s)
  {
    && r.key == s.key && r.nNew == s.nNew && r.nTried == s.nTried
    && (forall x, y :: x in s.info && y in s.info && x != y ==> Renamed(s, x) != Renamed(s, y))
    && (forall n :: n in r.info ==> exists id :: id in s.info && Renamed(s, id) == n)
    && (forall id :: id in s.info ==>
          && Renamed(s, id) in r.info
          && r.info[Renamed(s, id)] == s.info[id].(lastTry := 0, randomPos := r.info[Renamed(s, id)].randomPos))
    && r.addr == (map ip | ip in s.addr && s.addr[ip] in s.info :: Renamed(s, s.addr[ip]))
    && r.newTable == (map slot | slot in s.newTable && s.newTable[slot] in s.info :: Renamed(s, s.newTable[slot]))
    && r.triedTable == (map slot | slot in s.triedTable && s.triedTable[slot] in s.info :: Renamed(s, s.triedTable[slot]))
  }

  lemma NoIdle(h: Hashing, s: State, r: State)
    requires Settled(h, s) && Restoring(h, s, r, NEW_BUCKET_COUNT, 0)
    ensures Idle(r) == {}
    ensures forall id :: id in s.info ==> Renamed(s, id) in r.info && r.info[Renamed(s, id)].refCount == s.info[id].refCount
  {
    hide IndexOk, NewTableOk, TriedTableOk, EntriesOk, CountsOk, NewList, TriedList, Old, Part, Holding, Rank;
    forall id | id in s.info ensures Renamed(s, id) in r.info && r.info[Renamed(s, id)].refCount == s.info[id].refCount {
      OldRenamed(h, s, id);
      assert Back(s, r, Renamed(s, id));
      SameRefCount(h, s, r, id);
    }
    forall n | n in Idle(r) ensures false {
      assert Back(s, r, n);
      RenamedOld(h, s, n);
      SomeReference(h, s, Old(s, n));
    }
  }

  lemma SomeReference(h: Hashing, s: State, id: int)
    requires Settled(h, s) && id in s.info && !s.info[id].inTried
    ensures s.info[id].refCount > 0
  {
    assert EntryOk(h, s, id, false);
  }

  lemma SameRefCount(h: Hashing, s: State, r: State, id: int)
    requires Settled(h, s) && id in s.info && Loading(h, r) && r.newTable == Part(s, NEW_BUCKET_COUNT, 0)
    requires Renamed(s, id) in r.info && r.info[Renamed(s, id)].inTried == s.info[id].inTried
    ensures r.info[Renamed(s, id)].refCount == s.info[id].refCount
  {
    hide IndexOk, NewTableOk, TriedTableOk, EntriesOk, CountsOk, Rank, Idle;
    LimboIsIdle(h, s, {}, 0);
    RefCountIs(h, s, id);
    RefCountIs(h, r, Renamed(s, id));
    if !s.info[id].inTried {
      AllHolding(h, s, id);
    }
  }

  lemma AllHolding(h: Hashing, s: State, id: int)
    requires Settled(h, s) && id in s.info && !s.info[id].inTried
    ensures Holding(Part(s, NEW_BUCKET_COUNT, 0), Rank(s.info, false, id)) == Holding(s.newTable, id)
  {
    hide Midway, Rank;
    PartHolding(h, s, id, NEW_BUCKET_COUNT, 0);
    forall slot | slot in Holding(s.newTable, id) ensures Before(slot, NEW_BUCKET_COUNT, 0) {
      SlotBounds(h, s, slot);
    }
  }

  lemma NamesDiffer(h: Hashing, s: State, x: int, y: int)
    requires Settled(h, s) && x in s.info && y in s.info && x != y
    ensures Renamed(s, x) != Renamed(s, y)
  {
    hide Midway, Rank, NewList, TriedList;
    OldRenamed(h, s, x);
    OldRenamed(h, s, y);
  }

  lemma NewTableBack(h: Hashing, s: State)
    requires Settled(h, s)
    ensures Part(s, NEW_BUCKET_COUNT, 0) ==
      map slot | slot in s.newTable && s.newTable[slot] in s.info :: Renamed(s, s.newTable[slot])
  {
    hide IndexOk, NewTableOk, TriedTableOk, EntriesOk, CountsOk, Rank, NewList, TriedList;
    forall slot | slot in s.newTable
      ensures Before(slot, NEW_BUCKET_COUNT, 0) && s.newTable[slot] in s.info && !s.info[s.newTable[slot]].inTried
    {
      SlotBounds(h, s, slot);
    }
  }

  /** Every entry is back under its new name. */
  ghost predicate EntriesBack(s: State, r: State)
    requires IndexOk(s)
  {
    && (forall id :: id in s.info ==>
          && Renamed(s, id) in r.info
          && r.info[Renamed(s, id)] == s.info[id].(lastTry := 0, randomPos := r.info[Renamed(s, id)].randomPos))
    && (forall n :: n in r.info ==> exists id :: id in s.info && Renamed(s, id) == n)
  }

  lemma RestoredEntries(h: Hashing, s: State, r: State)
    requires Settled(h, s) && Restoring(h, s, r, NEW_BUCKET_COUNT, 0)
    ensures EntriesBack(s, r)
  {
    hide IndexOk, NewTableOk, TriedTableOk, EntriesOk, CountsOk, NewList, TriedList, Old, Part, Rank, Renamed;
    NoIdle(h, s, r);
    forall id | id in s.info
      ensures r.info[Renamed(s, id)] == s.info[id].(lastTry := 0, randomPos := r.info[Renamed(s, id)].randomPos)
    {
      OldRenamed(h, s, id);
      assert Back(s, r, Renamed(s, id));
    }
    forall n | n in r.info ensures exists id :: id in s.info && Renamed(s, id) == n {
      RenamedOld(h, s, n);
    }
  }

  lemma NameOf(s: State, r: State, n: int) returns (id: int)
    requires IndexOk(s) && EntriesBack(s, r) && n in r.info
    ensures id in s.info && Renamed(s, id) == n
  {
    hide IndexOk, Renamed;
    assert exists x :: x in s.info && Renamed(s, x) == n;
    id :| id in s.info && Renamed(s, id) == n;
  }

  /** The tried table follows from the entries. */
  lemma TriedTableBack(h: Hashing, s: State, r: State)
    requires Settled(h, s) && Settled(h, r) && r.key == s.key && EntriesBack(s, r)
    ensures r.triedTable == map slot | slot in s.triedTable && s.triedTable[slot] in s.info :: Renamed(s, s.triedTable[slot])
  {
    hide IndexOk, NewTableOk, CountsOk, TriedSlot, Renamed, Holding;
    var m := map slot | slot in s.triedTable && s.triedTable[slot] in s.info :: Renamed(s, s.triedTable[slot]);
    forall slot | slot in m ensures slot in r.triedTable && r.triedTable[slot] == m[slot] {
      assert EntryOk(h, r, m[slot], false);
    }
    forall slot | slot in r.triedTable ensures slot in m {
      var id := NameOf(s, r, r.triedTable[slot]);
      assert EntryOk(h, s, id, false);
    }
  }

  /** So does the address index. */
  lemma AddressesBack(h: Hashing, s: State, r: State)
    requires IndexOk(s) && AddrOk(s) && AddrOk(r) && EntriesBack(s, r)
    ensures r.addr == map ip | ip in s.addr && s.addr[ip] in s.info :: Renamed(s, s.addr[ip])
  {
    hide Renamed;
    var m := map ip | ip in s.addr && s.addr[ip] in s.info :: Renamed(s, s.addr[ip]);
    forall ip | ip in m ensures ip in r.addr && r.addr[ip] == m[ip] {
      assert m[ip] in r.info;
    }
    forall ip | ip in r.addr ensures ip in m {
      var id := NameOf(s, r, r.addr[ip]);
      assert s.info[id].service.ip == ip;
    }
  }

  lemma SavedLoaded(h: Hashing, s: State) returns (r: State)
    requires Settled(h, s)
    ensures r == Loaded(h, Saved(s)) && Settled(h, r) && Restoring(h, s, r, NEW_BUCKET_COUNT, 0)
  {
    hide IndexOk, NewTableOk, TriedTableOk, EntriesOk, CountsOk, NewList, TriedList, LoadBuckets, Part, Rank, Old, Back;
    SavedShape(s);
    RestoreBuckets(h, s, NEW_BUCKET_COUNT);
    r := LoadBuckets(h, Saved(s), NEW_BUCKET_COUNT);
    NoIdle(h, s, r);
    LoadBucketsKeeps(h, Saved(s), NEW_BUCKET_COUNT);
    PrunedNothing(h, r, r.idCount);
  }

  /**
   * Nothing is lost, pruned or moved: the manager read back is the one written, up to ids, random order and last tries.
   * Times that make sense come back as such.
   */
  lemma RoundTrip(h: Hashing, s: State)
    requires Steady(h, s)
    ensures Steady(h, Loaded(h, Saved(s))) && SameUpToNames(s, Loaded(h, Saved(s)))
    ensures TimesOk(s) ==> Inv(h, Loaded(h, Saved(s)))
  {
    hide IndexOk, NewTableOk, TriedTableOk, EntriesOk, CountsOk, AddrOk, TimesOk, NoRepeats, SaneTimes;
    hide NewList, TriedList, Loaded, Part, Rank, Old, Back, Renamed, Saved;
    var r := SavedLoaded(h, s);
    SavedSane(h, s);
    LoadedExactly(h, Saved(s));
    RestoredEntries(h, s, r);
    NewTableBack(h, s);
    TriedTableBack(h, s, r);
    AddressesBack(h, s, r);
    CountsBack(h, s, r);
    forall x, y | x in s.info && y in s.info && x != y ensures Renamed(s, x) != Renamed(s, y) {
      NamesDiffer(h, s, x, y);
    }
  }

  lemma CountsBack(h: Hashing, s: State, r: State)
    requires Settled(h, s) && Settled(h, r) && EntriesBack(s, r)
    ensures r.nNew == s.nNew && r.nTried == s.nTried
  {
    hide IndexOk, NewTableOk, TriedTableOk, EntriesOk, Renamed;
    ImageSize(h, s, NewIds(s.info), NewIds(r.info));
    ImageSize(h, s, TriedIds(s.info), TriedIds(r.info));
  }

  /** Renaming keeps the size of a set of entries. */
  lemma {:induction false} ImageSize(h: Hashing, s: State, a: set<int>, b: set<int>)
    requires Settled(h, s) && a <= s.info.Keys
    requires forall id :: id in a ==> Renamed(s, id) in b
    requires forall n :: n in b ==> exists id :: id in a && Renamed(s, id) == n
    ensures |a| == |b|
    decreases |a|
  {
    hide IndexOk, NewTableOk, TriedTableOk, EntriesOk, CountsOk, Renamed;
    if a == {} {
      if b != {} {
        var n := SomeElement(b);
        assert false;
      }
    } else {
      var id := SomeElement(a);
      var a', b' := a - {id}, b - {Renamed(s, id)};
      forall x | x in a' ensures Renamed(s, x) in b' {
        NamesDiffer(h, s, x, id);
      }
      forall n | n in b' ensures exists x :: x in a' && Renamed(s, x) == n {
        var x :| x in a && Renamed(s, x) == n;
        assert x in a';
      }
      ImageSize(h, s, a', b');
    }
  }
}
