/**
 * Where everything about an address manager stands in the stream it is written to, token by token
 * (the serialized format described in src/addrman.h).
 */
module AddrManLayout {
  import opened AddrMan
  import opened AddrManStore
  import opened AddrManSave
  import opened AddrManStream

  // ---------------------------------------------------------------- the bucket lists

  /** The references that come before position `k` of bucket `b` in a scan of the new table. */
  function Ahead(t: Table, b: int, k: int): set<Slot> {
    set slot | slot in t && Before(slot, b, k)
  }

  lemma AheadStep(t: Table, b: int, k: int)
    ensures |Ahead(t, b, k + 1)| == |Ahead(t, b, k)| + if (b, k) in t then 1 else 0
  {
    if (b, k) in t {
      assert Ahead(t, b, k + 1) == Ahead(t, b, k) + {(b, k)};
    } else {
      assert Ahead(t, b, k + 1) == Ahead(t, b, k);
    }
  }

  lemma AheadEnds(h: Hashing, s: State, b: int)
    requires Settled(h, s)
    ensures Ahead(s.newTable, 0, 0) == {} && Ahead(s.newTable, NEW_BUCKET_COUNT, 0) == s.newTable.Keys
    ensures Ahead(s.newTable, b, BUCKET_SIZE) == Ahead(s.newTable, b + 1, 0)
  {
    hide Midway;
    forall slot | slot in s.newTable ensures 0 <= slot.0 < NEW_BUCKET_COUNT && 0 <= slot.1 < BUCKET_SIZE {
      SlotBounds(h, s, slot);
    }
  }

  /** A bucket's list holds the indices of its entries, in the order of their positions. */
  lemma {:induction false} BucketListAt(s: State, b: int, k: nat)
    ensures |BucketList(s, b, k)| == |Ahead(s.newTable, b, k)| - |Ahead(s.newTable, b, 0)|
    ensures forall p :: 0 <= p < k && (b, p) in s.newTable ==>
              var j := |Ahead(s.newTable, b, p)| - |Ahead(s.newTable, b, 0)|;
              0 <= j < |BucketList(s, b, k)| && BucketList(s, b, k)[j] == Rank(s.info, false, s.newTable[(b, p)])
  {
    hide Ahead, Rank;
    if k > 0 {
      BucketListAt(s, b, k - 1);
      AheadStep(s.newTable, b, k - 1);
    }
  }

  /** The length of the lists of the first `b` buckets. */
  lemma {:induction false} ListsLength(h: Hashing, s: State, b: nat)
    requires Settled(h, s) && b <= NEW_BUCKET_COUNT
    ensures |Lists(Saved(s).buckets[..b])| == b + |Ahead(s.newTable, b, 0)|
  {
    hide IndexOk, NewTableOk, TriedTableOk, EntriesOk, CountsOk, Ahead, BucketList, Ints, Lists;
    if b == 0 {
      AheadEnds(h, s, 0);
      assert Saved(s).buckets[..0] == [];
      NothingListed();
    } else {
      ListsLength(h, s, b - 1);
      AheadEnds(h, s, b - 1);
      BucketListAt(s, b - 1, BUCKET_SIZE);
      ListsLast(Saved(s).buckets, b - 1);
    }
  }

  lemma NothingListed()
    ensures Lists([]) == []
  {
  }

  lemma {:induction false} ListsSplit(a: seq<seq<int>>, b: seq<seq<int>>)
    ensures Lists(a + b) == Lists(a) + Lists(b)
    decreases |a|
  {
    hide Ints;
    if a == [] {
      assert a + b == b;
    } else {
      ListsSplit(a[1..], b);
      assert (a + b)[1..] == a[1..] + b;
    }
  }

  lemma ListsOne(xs: seq<int>)
    ensures Lists([xs]) == [IntOf(|xs|)] + Ints(xs) && |Ints(xs)| == |xs|
  {
    assert Lists([xs][1..]) == [];
  }

  lemma ListsLast(bs: seq<seq<int>>, b: nat)
    requires b < |bs|
    ensures Lists(bs[..b + 1]) == Lists(bs[..b]) + [IntOf(|bs[b]|)] + Ints(bs[b])
    ensures |Lists(bs[..b + 1])| == |Lists(bs[..b])| + 1 + |bs[b]|
  {
    hide Ints, Lists;
    assert bs[..b + 1] == bs[..b] + [bs[b]];
    ListsSplit(bs[..b], [bs[b]]);
    ListsOne(bs[b]);
  }

  /** The tokens of one bucket. */
  lemma ListsAt(bs: seq<seq<int>>, b: nat, j: nat)
    requires b < |bs|
    ensures var at := |Lists(bs[..b])|;
            && at + |bs[b]| < |Lists(bs)| && Lists(bs)[at] == IntOf(|bs[b]|)
            && (j < |bs[b]| ==> Lists(bs)[at + 1 + j] == IntOf(bs[b][j]))
  {
    hide Lists;
    assert bs == bs[..b + 1] + bs[b + 1..];
    ListsSplit(bs[..b + 1], bs[b + 1..]);
    ListsLast(bs, b);
  }

  // ---------------------------------------------------------------- the layout

  /** How many entries of the same kind have a smaller id. */
  function Earlier(info: map<int, Info>, id: int): set<int>
    requires id in info
  {
    set x | x in info && x < id && info[x].inTried == info[id].inTried
  }

  lemma BelowTheCounter(h: Hashing, s: State, id: int)
    requires Settled(h, s) && id in s.info
    ensures 0 <= id < s.idCount
  {
  }

  lemma RankIs(h: Hashing, s: State, id: int)
    requires Settled(h, s) && id in s.info
    ensures Rank(s.info, s.info[id].inTried, id) == |Earlier(s.info, id)|
  {
    hide Listing, Midway, Picks;
    var tried := s.info[id].inTried;
    BelowTheCounter(h, s, id);
    ListingCount(s.info, tried, id);
    forall x | x in s.info ensures 0 <= x && (Picks(s.info[x], tried) <==> s.info[x].inTried == tried) {
      BelowTheCounter(h, s, x);
      PicksRight(h, s, x);
    }
    assert Below(s.info, tried, id) == Earlier(s.info, id);
  }

  lemma Sizes(h: Hashing, s: State)
    requires Settled(h, s)
    ensures var f := Saved(s); |Lists(f.buckets)| == 1024 + |s.newTable| && |f.buckets| == 1024
  {
    hide IndexOk, NewTableOk, TriedTableOk, EntriesOk, CountsOk, Lists, BucketList, Ahead;
    ListsLength(h, s, NEW_BUCKET_COUNT);
    AheadEnds(h, s, 0);
    assert Saved(s).buckets[..NEW_BUCKET_COUNT] == Saved(s).buckets;
  }

  lemma EntriesLength(rs: seq<Record>)
    ensures |Entries(rs)| == |rs|
  {
  }

  /**
   * The stream starts with the version 1, the key's size 32, the key, the two counters, and 1024 with bit 30 set; then
   * come as many entries as counted, and a list for every bucket.
   */
  lemma StreamLayout(h: Hashing, s: State)
    requires Settled(h, s)
    ensures var t := Emitted(Saved(s));
            && |t| == 6 + s.nNew + s.nTried + 1024 + |s.newTable|
            && t[..6] == [ByteOf(1), ByteOf(32), KeyOf(s.key), IntOf(s.nNew), IntOf(s.nTried), IntOf(0x4000_0400)]
  {
    hide IndexOk, NewTableOk, TriedTableOk, EntriesOk, CountsOk, Lists, BucketList, Entries, Records, Listing;
    SavedCounts(h, s);
    Sizes(h, s);
    EntriesLength(Saved(s).entries);
    EntriesLength(Saved(s).triedEntries);
  }

  /** An entry stands after those of its kind with a smaller id; the tried ones follow the new ones. */
  lemma StreamEntry(h: Hashing, s: State, id: int)
    requires Settled(h, s) && id in s.info
    ensures var t, i := Emitted(Saved(s)), s.info[id];
            var at := 6 + |Earlier(s.info, id)| + if i.inTried then s.nNew else 0;
            && 6 <= at < |t|
            && t[at] == EntryOf(Record(i.service, i.services, i.time, i.source, i.lastSuccess, i.attempts))
  {
    hide IndexOk, NewTableOk, TriedTableOk, EntriesOk, CountsOk, Lists, BucketList, Listing, Earlier;
    var f, i := Saved(s), s.info[id];
    SavedCounts(h, s);
    RankIs(h, s, id);
    PicksRight(h, s, id);
    BelowTheCounter(h, s, id);
    ListingAt(s.info, i.inTried, s.idCount, id);
    ListingMembers(s.info, i.inTried, s.idCount);
    EntriesLength(f.entries);
    EntriesLength(f.triedEntries);
  }

  /** A bucket starts, after the entries and the buckets before it, with the number of its references. */
  lemma StreamBucket(h: Hashing, s: State, b: nat)
    requires Settled(h, s) && b < 1024
    ensures var t := Emitted(Saved(s));
            var at := 6 + s.nNew + s.nTried + b + |Ahead(s.newTable, b, 0)|;
            0 <= at < |t| && t[at] == IntOf(|Ahead(s.newTable, b + 1, 0)| - |Ahead(s.newTable, b, 0)|)
  {
    hide IndexOk, NewTableOk, TriedTableOk, EntriesOk, CountsOk, Lists, BucketList, Entries, Records, Listing, Ahead;
    var f := Saved(s);
    SavedCounts(h, s);
    EntriesLength(f.entries);
    EntriesLength(f.triedEntries);
    ListsLength(h, s, b);
    AheadEnds(h, s, b);
    BucketListAt(s, b, BUCKET_SIZE);
    ListsAt(f.buckets, b, 0);
  }

  /** A reference stands after those before it, as the index of its entry among the new ones. */
  lemma StreamReference(h: Hashing, s: State, slot: Slot)
    requires Settled(h, s) && slot in s.newTable
    ensures s.newTable[slot] in s.info
    ensures var t := Emitted(Saved(s));
            var at := 6 + s.nNew + s.nTried + slot.0 + 1 + |Ahead(s.newTable, slot.0, slot.1)|;
            0 <= at < |t| && t[at] == IntOf(|Earlier(s.info, s.newTable[slot])|)
  {
    hide IndexOk, NewTableOk, TriedTableOk, EntriesOk, CountsOk, Lists, BucketList, Entries, Records, Listing, Ahead, Earlier;
    var f := Saved(s);
    SlotBounds(h, s, slot);
    RankIs(h, s, s.newTable[slot]);
    SavedCounts(h, s);
    EntriesLength(f.entries);
    EntriesLength(f.triedEntries);
    ListsLength(h, s, slot.0);
    BucketListAt(s, slot.0, BUCKET_SIZE);
    ListsAt(f.buckets, slot.0, |Ahead(s.newTable, slot.0, slot.1)| - |Ahead(s.newTable, slot.0, 0)|);
  }
}
