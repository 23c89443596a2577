/** The loops that write an address manager to its file and read it back (src/addrman.h). */
module AddrManFile {
  import opened AddrMan
  import opened AddrManSteps
  import opened AddrManStore
  import opened AddrManStay
  import opened AddrManSave
  import opened AddrManTable

  // ---------------------------------------------------------------- writing

  lemma RecordsStep(info: map<int, Info>, tried: bool, n: nat)
    ensures AllIn(info, Listing(info, tried, n)) && AllIn(info, Listing(info, tried, n + 1))
    ensures Records(info, Listing(info, tried, n + 1)) ==
      Records(info, Listing(info, tried, n)) + if n in info && Picks(info[n], tried) then [RecordOf(info[n])] else []
  {
    ListingMembers(info, tried, n);
    ListingMembers(info, tried, n + 1);
  }

  /** The assertion while writing: an entry that is still to come is not beyond the count. */
  lemma CountHolds(h: Hashing, s: State, tried: bool, id: int)
    requires Settled(h, s) && id in s.info && Picks(s.info[id], tried)
    ensures Rank(s.info, tried, id) < if tried then s.nTried else s.nNew
  {
    SavedCounts(h, s);
    SavedShape(s);
    hide Listing;
    ListingAt(s.info, tried, s.idCount, id);
  }

  /** The first two loops of `Serialize`: one group of entries, and the index each id gets. */
  method WriteEntries(m: AddrManager, tried: bool) returns (out: seq<Record>, index: map<int, int>)
    requires m.Valid()
    ensures AllIn(m.mapInfo, Listing(m.mapInfo, tried, m.nIdCount))
    ensures out == Records(m.mapInfo, Listing(m.mapInfo, tried, m.nIdCount))
    ensures forall id :: id in m.mapInfo ==> id in index && index[id] == Rank(m.mapInfo, tried, id)
  {
    hide Midway, TableOf, Picks, Listing, Records;
    Counter(m.h, m.Contents());
    out, index := [], map[];
    var nIds, id := 0, 0;
    assert Listing(m.mapInfo, tried, 0) == [] by { ListingZero(m.mapInfo, tried); }
    forall x | x in m.mapInfo ensures 0 <= x < m.nIdCount {
      IdsNonNegative(m.h, m.Contents(), x);
      BelowCounter(m.h, m.Contents(), x);
    }
    while id < m.nIdCount
      invariant 0 <= id <= m.nIdCount && nIds == |Listing(m.mapInfo, tried, id)|
      invariant AllIn(m.mapInfo, Listing(m.mapInfo, tried, id))
      invariant out == Records(m.mapInfo, Listing(m.mapInfo, tried, id))
      invariant forall x :: x in m.mapInfo && x < id ==> x in index && index[x] == Rank(m.mapInfo, tried, x)
    {
      RecordsStep(m.mapInfo, tried, id);
      ListingStep(m.mapInfo, tried, id);
      if id in m.mapInfo {
        index := index[id := nIds];
        if (if tried then m.mapInfo[id].inTried else m.mapInfo[id].refCount != 0) {
          PicksDef(m.mapInfo[id], tried);
          CountHolds(m.h, m.Contents(), tried, id);
          assert nIds != if tried then m.nTried else m.nNew;
          out := out + [RecordOf(m.mapInfo[id])];
          nIds := nIds + 1;
        } else {
          PicksDef(m.mapInfo[id], tried);
        }
      }
      id := id + 1;
    }
  }

  lemma PicksDef(i: Info, tried: bool)
    ensures Picks(i, tried) <==> if tried then i.inTried else i.refCount != 0
  {
  }

  lemma ListingZero(info: map<int, Info>, tried: bool)
    ensures Listing(info, tried, 0) == []
  {
  }

  lemma ListingStep(info: map<int, Info>, tried: bool, n: nat)
    ensures |Listing(info, tried, n + 1)| == |Listing(info, tried, n)| + if n in info && Picks(info[n], tried) then 1 else 0
  {
  }

  lemma Counter(h: Hashing, s: State)
    requires Settled(h, s)
    ensures s.idCount >= 0
  {
  }

  lemma BelowCounter(h: Hashing, s: State, id: int)
    requires Settled(h, s) && id in s.info
    ensures id < s.idCount
  {
  }

  /** The last loop of `Serialize`, for one bucket. */
  method WriteBucket(m: AddrManager, bucket: int, index: map<int, int>) returns (out: seq<int>)
    requires m.Valid() && 0 <= bucket < NEW_BUCKET_COUNT
    requires forall id :: id in m.mapInfo ==> id in index && index[id] == Rank(m.mapInfo, false, id)
    ensures out == BucketList(m.Contents(), bucket, BUCKET_SIZE)
  {
    hide Midway, TableOf, Rank;
    out := [];
    var i := 0;
    while i < BUCKET_SIZE
      invariant 0 <= i <= BUCKET_SIZE && out == BucketList(m.Contents(), bucket, i)
    {
      TableAt(m.vvNew, bucket, i);
      if m.vvNew[bucket, i] != -1 {
        SlotBounds(m.h, m.Contents(), (bucket, i));
        out := out + [index[m.vvNew[bucket, i]]];
      }
      i := i + 1;
    }
  }

  /** `CAddrMan::Serialize`. */
  method Serialize(m: AddrManager) returns (f: File)
    requires m.Valid()
    ensures f == Saved(m.Contents())
  {
    hide IndexOk, NewTableOk, TriedTableOk, EntriesOk, CountsOk, TableOf, Listing, BucketList, Rank, Records;
    var entries, index := WriteEntries(m, false);
    var triedEntries, _ := WriteEntries(m, true);
    var buckets: seq<seq<int>> := [];
    for bucket := 0 to NEW_BUCKET_COUNT
      invariant |buckets| == bucket
      invariant forall b :: 0 <= b < bucket ==> buckets[b] == BucketList(m.Contents(), b, BUCKET_SIZE)
    {
      var list := WriteBucket(m, bucket, index);
      buckets := buckets + [list];
    }
    f := File(1, m.nKey, entries, triedEntries, buckets);
  }

  // ---------------------------------------------------------------- reading

  /** A state whose counters already hold what the file announces. */
  function Announced(s: State, nNew: int, nTried: int, idCount: int): State {
    s.(nNew := nNew, nTried := nTried, idCount := idCount)
  }

  /** One pass of the loop over the new entries. */
  method EnterNew(m: AddrManager, n: int, r: Record, usable: bool, ghost s: State)
    requires m.Shaped() && n != -1 && s.idCount == n && m.Contents() == Announced(s, m.nNew, m.nTried, m.nIdCount)
    modifies m`mapInfo, m`mapAddr, m`vRandom, m.vvNew
    ensures m.Contents() == Announced(LoadNewOne(m.h, s, r, usable), m.nNew, m.nTried, m.nIdCount)
  {
    hide TableOf, NewBucket, Position;
    m.mapInfo := m.mapInfo[n := InfoOf(r)];
    m.mapAddr := m.mapAddr[r.service.ip := n];
    m.mapInfo := m.mapInfo[n := m.mapInfo[n].(randomPos := |m.vRandom|)];
    m.vRandom := m.vRandom + [n];
    assert m.mapInfo == s.info[n := InfoOf(r).(randomPos := |s.random|)];
    if !usable {
      var uBucket := NewBucket(m.h, m.nKey, r.service, r.source);
      var uPos := Position(m.h, m.nKey, true, uBucket, r.service);
      TableAt(m.vvNew, uBucket, uPos);
      if m.vvNew[uBucket, uPos] == -1 {
        m.Reference(uBucket, uPos, n);
      }
    }
  }

  /** The loop over the new entries. */
  method ReadNew(m: AddrManager, f: File)
    requires m.Shaped() && m.Contents() == Announced(Empty(f.key), m.nNew, m.nTried, m.nIdCount)
    modifies m`mapInfo, m`mapAddr, m`vRandom, m.vvNew
    ensures m.Contents() == Announced(LoadNew(m.h, f, |f.entries|), m.nNew, m.nTried, m.nIdCount)
  {
    hide TableOf, LoadNewOne;
    var n := 0;
    while n < |f.entries|
      invariant 0 <= n <= |f.entries| && LoadNew(m.h, f, n).idCount == n
      invariant m.Contents() == Announced(LoadNew(m.h, f, n), m.nNew, m.nTried, m.nIdCount)
    {
      LoadNewOneFields(m.h, LoadNew(m.h, f, n), f.entries[n], f.Usable());
      EnterNew(m, n, f.entries[n], f.version == 1 && |f.buckets| == NEW_BUCKET_COUNT, LoadNew(m.h, f, n));
      n := n + 1;
    }
  }

  /** One pass of the loop over the tried entries; tells whether the entry was lost. */
  method EnterTried(m: AddrManager, r: Record, ghost s: State) returns (lost: bool)
    requires m.Shaped() && m.nIdCount != -1 && m.Contents() == Announced(s, m.nNew, m.nTried, s.idCount)
    modifies m`mapInfo, m`mapAddr, m`vRandom, m`nIdCount, m.vvTried
    ensures m.Contents() == Announced(LoadTriedOne(m.h, s, r), m.nNew, m.nTried, m.nIdCount)
    ensures m.nIdCount == LoadTriedOne(m.h, s, r).idCount
    ensures LoadTriedOne(m.h, s, r).nTried == s.nTried + if lost then 0 else 1
  {
    hide TableOf, TriedBucket, Position;
    var kBucket := TriedBucket(m.h, m.nKey, r.service);
    var kPos := Position(m.h, m.nKey, false, kBucket, r.service);
    TableAt(m.vvTried, kBucket, kPos);
    lost := m.vvTried[kBucket, kPos] != -1;
    if !lost {
      var id := m.nIdCount;
      m.vRandom := m.vRandom + [id];
      m.mapInfo := m.mapInfo[id := InfoOf(r).(randomPos := |m.vRandom| - 1, inTried := true)];
      m.mapAddr := m.mapAddr[r.service.ip := id];
      SetSlot(m.vvTried, kBucket, kPos, id);
      m.nIdCount := m.nIdCount + 1;
      assert m.mapInfo == LoadTriedOne(m.h, s, r).info;
    }
  }

  lemma LoadTriedNumbers(h: Hashing, f: File, k: nat)
    requires k <= |f.triedEntries|
    ensures LoadTried(h, f, k).nNew == |f.entries| && LoadTried(h, f, k).idCount >= |f.entries|
    ensures k == 0 ==> LoadTried(h, f, k).nTried == 0 && LoadTried(h, f, k).idCount == |f.entries|
  {
    hide LoadTriedOne, TriedSlot;
    if k == 0 {
      LoadNewNumbers(h, f, |f.entries|);
    } else {
      LoadTriedNumbers(h, f, k - 1);
      LoadTriedOneNumbers(h, LoadTried(h, f, k - 1), f.triedEntries[k - 1]);
    }
  }

  lemma LoadTriedOneNumbers(h: Hashing, s: State, r: Record)
    ensures LoadTriedOne(h, s, r).nNew == s.nNew && LoadTriedOne(h, s, r).idCount >= s.idCount
  {
  }

  lemma {:induction false} LoadNewNumbers(h: Hashing, f: File, k: nat)
    requires k <= |f.entries|
    ensures var s := LoadNew(h, f, k); s.nNew == k && s.nTried == 0 && s.idCount == k
  {
    hide NewSlot;
    if k > 0 {
      LoadNewNumbers(h, f, k - 1);
    }
  }

  /** The loop over the tried entries. */
  method ReadTried(m: AddrManager, f: File)
    requires m.Shaped() && m.Contents() == Announced(LoadNew(m.h, f, |f.entries|), |f.entries|, |f.triedEntries|, |f.entries|)
    modifies m`mapInfo, m`mapAddr, m`vRandom, m`nIdCount, m`nTried, m.vvTried
    ensures m.Contents() == LoadTried(m.h, f, |f.triedEntries|)
  {
    hide TableOf, LoadTriedOne, LoadNew;
    var nLost, n := 0, 0;
    LoadTriedNumbers(m.h, f, 0);
    while n < |f.triedEntries|
      invariant 0 <= n <= |f.triedEntries| && m.nTried == |f.triedEntries| && m.nNew == |f.entries|
      invariant LoadTried(m.h, f, n).nTried == n - nLost && m.nIdCount == LoadTried(m.h, f, n).idCount
      invariant m.Contents() == Announced(LoadTried(m.h, f, n), m.nNew, m.nTried, m.nIdCount)
    {
      LoadTriedNumbers(m.h, f, n);
      var lost := EnterTried(m, f.triedEntries[n], LoadTried(m.h, f, n));
      if lost {
        nLost := nLost + 1;
      }
      n := n + 1;
    }
    LoadTriedNumbers(m.h, f, n);
    m.nTried := m.nTried - nLost;
  }

  /** One pass of the innermost loop over the positions in the new table. */
  method EnterIndex(m: AddrManager, bucket: int, index: int, usable: bool)
    requires m.Shaped() && (usable ==> 0 <= bucket < NEW_BUCKET_COUNT) && m.nNew >= 0
    requires forall id :: 0 <= id < m.nNew ==> id in m.mapInfo
    modifies m`mapInfo, m.vvNew
    ensures m.Contents() == LoadIndex(m.h, old(m.Contents()), bucket, index, m.nNew, usable)
    ensures m.mapInfo.Keys == old(m.mapInfo).Keys
  {
    hide TableOf, Position;
    if 0 <= index < m.nNew {
      var uPos := Position(m.h, m.nKey, true, bucket, m.mapInfo[index].service);
      if usable {
        TableAt(m.vvNew, bucket, uPos);
        if m.vvNew[bucket, uPos] == -1 && m.mapInfo[index].refCount < NEW_BUCKETS_PER_ADDRESS {
          m.Reference(bucket, uPos, index);
        }
      }
    }
  }

  /** The inner loop over the positions in the new table. */
  method ReadBucket(m: AddrManager, bucket: int, indices: seq<int>, usable: bool)
    requires m.Shaped() && (usable ==> 0 <= bucket < NEW_BUCKET_COUNT) && m.nNew >= 0
    requires forall id :: 0 <= id < m.nNew ==> id in m.mapInfo
    modifies m`mapInfo, m.vvNew
    ensures m.Contents() == LoadBucket(m.h, old(m.Contents()), bucket, indices, |indices|, m.nNew, usable)
    ensures m.mapInfo.Keys == old(m.mapInfo).Keys
  {
    hide TableOf, LoadIndex;
    ghost var s := m.Contents();
    var n := 0;
    while n < |indices|
      invariant 0 <= n <= |indices| && m.mapInfo.Keys == s.info.Keys
      invariant m.Contents() == LoadBucket(m.h, s, bucket, indices, n, m.nNew, usable)
    {
      assert forall id :: 0 <= id < m.nNew ==> id in m.mapInfo.Keys;
      EnterIndex(m, bucket, indices[n], usable);
      n := n + 1;
    }
  }

  /** The loop over the buckets of the new table. */
  method ReadBuckets(m: AddrManager, f: File)
    requires m.Shaped() && m.Contents() == LoadTried(m.h, f, |f.triedEntries|)
    modifies m`mapInfo, m.vvNew
    ensures m.Contents() == LoadBuckets(m.h, f, |f.buckets|)
  {
    hide TableOf, LoadBucket, LoadTried, Loading;
    var bucket := 0;
    LoadTriedNumbers(m.h, f, |f.triedEntries|);
    while bucket < |f.buckets|
      invariant 0 <= bucket <= |f.buckets| && m.nNew == |f.entries|
      invariant m.Contents() == LoadBuckets(m.h, f, bucket)
    {
      LoadBucketsKeeps(m.h, f, bucket);
      ReadBucket(m, bucket, f.buckets[bucket], f.version == 1 && |f.buckets| == NEW_BUCKET_COUNT);
      bucket := bucket + 1;
    }
  }

  /** The loop that drops new entries without a reference. */
  method Prune(m: AddrManager)
    requires m.Shaped() && Loading(m.h, m.Contents()) && m.nIdCount >= 0
    modifies m`mapInfo, m`mapAddr, m`vRandom, m`nNew
    ensures m.Contents() == Pruned(m.h, old(m.Contents()), m.nIdCount)
  {
    hide TableOf, Deleted, Loading;
    ghost var s := m.Contents();
    var id := 0;
    while id < m.nIdCount
      invariant 0 <= id <= m.nIdCount
      invariant m.Contents() == Pruned(m.h, s, id)
      invariant Loading(m.h, m.Contents())
    {
      if id in m.mapInfo && !m.mapInfo[id].inTried && m.mapInfo[id].refCount == 0 {
        assert IndexOk(m.Contents()) by { LoadingIndex(m.h, m.Contents()); }
        m.Delete(id);
      }
      id := id + 1;
    }
  }

  lemma LoadingIndex(h: Hashing, s: State)
    requires Loading(h, s)
    ensures IndexOk(s)
  {
  }

  /**
   * `CAddrMan::Unserialize`, for a manager that was just constructed. Every file is read; the operations can go on with
   * the manager exactly if no record that stays shares its address with another one that enters.
   */
  method Unserialize(m: AddrManager, f: File)
    requires m.Shaped() && m.Contents() == Empty(m.nKey)
    modifies m, m.vvNew, m.vvTried
    ensures m.Shaped() && m.Contents() == Loaded(m.h, f) && Settled(m.h, m.Contents())
    ensures m.Valid() <==> UnsharedFile(m.h, f)
  {
    hide Midway, AddrOk, TimesOk, TableOf, LoadNew, LoadTried, LoadBuckets, Pruned, UnsharedFile, StayingTimesFile;
    LoadedSettled(m.h, f);
    LoadedOnFile(m.h, f);
    m.nKey := f.key;
    m.nNew := |f.entries|;
    m.nTried := |f.triedEntries|;
    ReadNew(m, f);
    m.nIdCount := m.nNew;
    ReadTried(m, f);
    ReadBuckets(m, f);
    LoadBucketsKeeps(m.h, f, |f.buckets|);
    Prune(m);
  }

  /** Write a manager, construct another and read it back. */
  method SaveAndLoad(m: AddrManager, key: Key) returns (r: AddrManager)
    requires m.Valid()
    ensures r.Valid() && SameUpToNames(m.Contents(), r.Contents())
    ensures TimesOk(m.Contents()) ==> TimesOk(r.Contents())
  {
    hide IndexOk, NewTableOk, TriedTableOk, EntriesOk, CountsOk, AddrOk, TimesOk, TableOf, Saved, Loaded, SameUpToNames;
    RoundTrip(m.h, m.Contents());
    var f := Serialize(m);
    r := new AddrManager(m.h, key);
    Unserialize(r, f);
  }
}
