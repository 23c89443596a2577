/** Which records of a file stay in the address manager, told from the file alone (`CAddrMan::Unserialize`, src/addrman.h). */
module AddrManStay {
  import opened AddrMan
  import opened AddrManSteps
  import opened AddrManStore
  import opened AddrManLoad

  // ---------------------------------------------------------------- who gets a reference

  /** No earlier new record has the same slot by its source. */
  predicate FirstOfSlot(h: Hashing, f: File, n: int)
    requires 0 <= n < |f.entries|
  {
    var r := f.entries[n];
    forall m :: 0 <= m < n ==> NewSlot(h, f.key, f.entries[m].service, f.entries[m].source) != NewSlot(h, f.key, r.service, r.source)
  }

  /** The slot of bucket `b` that the `k`-th index of its list means. */
  function SlotAt(h: Hashing, f: File, b: int, k: int): Slot
    requires IsIndex(f, b, k)
  {
    SlotIn(h, f.key, b, f.entries[f.buckets[b][k]].service)
  }

  /** The `k`-th number in the list of bucket `b` is the index of a new record. */
  predicate IsIndex(f: File, b: int, k: int) {
    0 <= b < |f.buckets| && 0 <= k < |f.buckets[b]| && 0 <= f.buckets[b][k] < |f.entries|
  }

  /** The references a new record has got from the first `b` buckets. */
  ghost function Refs(h: Hashing, f: File, n: int, b: int): nat
    requires 0 <= n < |f.entries| && 0 <= b <= |f.buckets|
    decreases b, 0
  {
    if b == 0 then 0 else Refs(h, f, n, b - 1) + if Gets(h, f, n, b - 1, |f.buckets[b - 1]|) then 1 else 0
  }

  /** The record it means has room for another reference. */
  ghost predicate HasRoom(h: Hashing, f: File, b: int, k: int)
    decreases b, 1
  {
    IsIndex(f, b, k) && Refs(h, f, f.buckets[b][k], b) < NEW_BUCKETS_PER_ADDRESS
  }

  /** It is the first in its bucket to ask for its slot. */
  ghost predicate Wins(h: Hashing, f: File, b: int, k: int)
    decreases b, 2
  {
    HasRoom(h, f, b, k) && forall i :: 0 <= i < k && HasRoom(h, f, b, i) ==> SlotAt(h, f, b, i) != SlotAt(h, f, b, k)
  }

  /** One of the first `k` numbers in the list of bucket `b` gives the record a reference. */
  ghost predicate Gets(h: Hashing, f: File, n: int, b: int, k: int)
    requires 0 <= b < |f.buckets| && 0 <= k <= |f.buckets[b]|
    decreases b, 3
  {
    exists i :: 0 <= i < k && f.buckets[b][i] == n && Wins(h, f, b, i)
  }

  /**
   * A record that enters stays if it is a tried one or gets a reference. The positions written count only in a file of
   * version 1 with 1024 buckets; in any other one a new entry is put where its source puts it.
   */
  ghost predicate Stays(h: Hashing, f: File, n: int)
    requires 0 <= n < Count(f)
  {
    n >= |f.entries| ||
    if f.version == 1 && |f.buckets| == 1024 then Refs(h, f, n, |f.buckets|) > 0 else FirstOfSlot(h, f, n)
  }

  // ---------------------------------------------------------------- entries and records

  /** The places of the records that enter, among the first `n`, in order. */
  ghost function Entered(h: Hashing, f: File, n: int): seq<int>
    requires 0 <= n <= Count(f)
  {
    if n == 0 then [] else Entered(h, f, n - 1) + if Enters(h, f, n - 1) then [n - 1] else []
  }

  lemma {:induction false} EnteredIs(h: Hashing, f: File, n: int)
    requires 0 <= n <= Count(f)
    ensures var l := Entered(h, f, n);
            && (forall i :: 0 <= i < |l| ==> 0 <= l[i] < n && Enters(h, f, l[i]))
            && (forall i, j :: 0 <= i < j < |l| ==> l[i] < l[j])
            && (forall x :: 0 <= x < n && Enters(h, f, x) ==> x in l)
  {
    hide Enters;
    if n > 0 {
      EnteredIs(h, f, n - 1);
    }
  }

  lemma {:induction false} NewEnter(h: Hashing, f: File, n: int)
    requires 0 <= n <= |f.entries|
    ensures |Entered(h, f, n)| == n && forall i :: 0 <= i < n ==> Entered(h, f, n)[i] == i
  {
    if n > 0 {
      NewEnter(h, f, n - 1);
    }
  }

  lemma {:induction false} NewFirst(h: Hashing, f: File, n: int)
    requires |f.entries| <= n <= Count(f)
    ensures |Entered(h, f, n)| >= |f.entries| && forall i :: 0 <= i < |f.entries| ==> Entered(h, f, n)[i] == i
  {
    if n == |f.entries| {
      NewEnter(h, f, n);
    } else {
      NewFirst(h, f, n - 1);
    }
  }

  /** The entry was made of the record. */
  predicate MadeOf(i: Info, f: File, n: int)
    requires 0 <= n < Count(f)
  {
    && i.service == RecordAt(f, n).service && (i.inTried <==> n >= |f.entries|)
    && (TimeOk(i) <==> RecordAt(f, n).lastSuccess >= if n < |f.entries| then 0 else 1)
  }

  /** The entries are those made of the records that enter, under the ids 0, 1, 2 and so on. */
  ghost predicate Mirrors(h: Hashing, f: File, n: int, s: State)
    requires 0 <= n <= Count(f)
  {
    var l := Entered(h, f, n);
    && s.idCount == |l| && (forall id :: id in s.info <==> 0 <= id < |l|)
    && forall id :: 0 <= id < |l| ==> 0 <= l[id] < Count(f) && MadeOf(s.info[id], f, l[id])
  }

  lemma MirrorsMore(h: Hashing, f: File, n: int, s: State, t: State)
    requires 0 <= n < Count(f) && Mirrors(h, f, n, s) && Enters(h, f, n)
    requires t.idCount == s.idCount + 1 && OneMore(s, t, s.idCount) && MadeOf(t.info[s.idCount], f, n)
    ensures Mirrors(h, f, n + 1, t)
  {
    hide Enters, MadeOf;
    var l, l' := Entered(h, f, n), Entered(h, f, n + 1);
    assert l' == l + [n];
    forall id | 0 <= id < |l'| ensures 0 <= l'[id] < Count(f) && MadeOf(t.info[id], f, l'[id]) {
      if id < |l| {
        assert id in s.info && t.info[id] == s.info[id] && l'[id] == l[id];
      }
    }
  }

  lemma NewMade(h: Hashing, s: State, r: Record, usable: bool)
    requires s.idCount !in s.info
    ensures var t := LoadNewOne(h, s, r, usable);
            t.idCount == s.idCount + 1 && s.idCount in t.info && !t.info[s.idCount].inTried
  {
    hide NewSlot;
  }

  lemma TriedMade(h: Hashing, s: State, r: Record)
    requires s.idCount !in s.info && TriedSlot(h, s.key, r.service) !in s.triedTable
    ensures var t := LoadTriedOne(h, s, r);
            t.idCount == s.idCount + 1 && s.idCount in t.info && t.info[s.idCount].inTried
  {
    hide TriedSlot;
  }

  lemma {:induction false} LoadNewMirrors(h: Hashing, f: File, k: nat)
    requires k <= |f.entries|
    ensures Mirrors(h, f, k, LoadNew(h, f, k))
  {
    hide Loading, LoadNewOne, Mirrors;
    if k == 0 {
      MirrorsNone(h, f);
    } else {
      LoadNewMirrors(h, f, k - 1);
      LoadNewKeeps(h, f, k - 1);
      NextIdFree(h, LoadNew(h, f, k - 1));
      LoadNewOneMirrors(h, f, k - 1, LoadNew(h, f, k - 1));
    }
  }

  lemma MirrorsNone(h: Hashing, f: File)
    ensures Mirrors(h, f, 0, Empty(f.key))
  {
  }

  lemma LoadNewOneMirrors(h: Hashing, f: File, n: int, s: State)
    requires 0 <= n < |f.entries| && Mirrors(h, f, n, s) && s.idCount !in s.info
    ensures Mirrors(h, f, n + 1, LoadNewOne(h, s, f.entries[n], f.Usable()))
  {
    hide LoadNewOne, Mirrors, OneMore, TimeOk;
    LoadNewOneMore(h, s, f.entries[n], f.Usable());
    NewMade(h, s, f.entries[n], f.Usable());
    MirrorsMore(h, f, n, s, LoadNewOne(h, s, f.entries[n], f.Usable()));
  }

  lemma {:induction false} LoadTriedMirrors(h: Hashing, f: File, k: nat)
    requires k <= |f.triedEntries|
    ensures Mirrors(h, f, |f.entries| + k, LoadTried(h, f, k))
  {
    hide Loading, LoadTriedOne, LoadNew, Mirrors, OneMore, TimeOk, Enters, Claims, Tells, TriedSlot;
    if k == 0 {
      LoadNewMirrors(h, f, |f.entries|);
    } else {
      LoadTriedMirrors(h, f, k - 1);
      LoadTriedKeeps(h, f, k - 1);
      var s, n := LoadTried(h, f, k - 1), |f.entries| + k - 1;
      NextIdFree(h, s);
      LoadTriedTells(h, f, k - 1);
      EntersIsUnclaimed(h, f, n);
      TellsClaims(h, f, n, s, TriedSlot(h, f.key, RecordAt(f, n).service));
      LoadTriedOneMore(h, s, f.triedEntries[k - 1]);
      if Enters(h, f, n) {
        TriedMade(h, s, f.triedEntries[k - 1]);
        MirrorsMore(h, f, n, s, LoadTried(h, f, k));
      } else {
        MirrorsSame(h, f, n, s);
      }
    }
  }

  lemma MirrorsSame(h: Hashing, f: File, n: int, s: State)
    requires 0 <= n < Count(f) && Mirrors(h, f, n, s) && !Enters(h, f, n)
    ensures Mirrors(h, f, n + 1, s)
  {
    assert Entered(h, f, n + 1) == Entered(h, f, n) + [] == Entered(h, f, n);
  }

  lemma MirrorsReferences(h: Hashing, f: File, n: int, s: State, r: State)
    requires 0 <= n <= Count(f) && Mirrors(h, f, n, s) && OnlyReferences(s, r)
    ensures Mirrors(h, f, n, r)
  {
    var l := Entered(h, f, n);
    forall id | 0 <= id < |l| ensures MadeOf(r.info[id], f, l[id]) {
      assert id in s.info && r.info[id] == s.info[id].(refCount := r.info[id].refCount);
    }
  }

  // ---------------------------------------------------------------- references without usable positions

  /** One of the first `k` new records has this slot by its source. */
  ghost predicate Asked(h: Hashing, f: File, k: int, slot: Slot)
    requires 0 <= k <= |f.entries|
  {
    exists m :: 0 <= m < k && FirstSlot(h, f.key, f.entries[m]) == slot
  }

  /** What the first `k` new records have got of the new table. */
  ghost predicate Placed(h: Hashing, f: File, k: int, s: State)
    requires 0 <= k <= |f.entries|
  {
    && (forall id :: 0 <= id < k ==> id in s.info)
    && if f.Usable() then s.newTable == map[] && forall id :: 0 <= id < k ==> s.info[id].refCount == 0
       else
         && (forall slot :: slot in s.newTable <==> Asked(h, f, k, slot))
         && (forall id :: 0 <= id < k ==> (s.info[id].refCount > 0 <==> FirstOfSlot(h, f, id)))
  }

  lemma AskedMore(h: Hashing, f: File, k: int, slot: Slot)
    requires 0 <= k < |f.entries|
    ensures Asked(h, f, k + 1, slot) <==> Asked(h, f, k, slot) || slot == FirstSlot(h, f.key, f.entries[k])
  {
    hide FirstSlot;
    if Asked(h, f, k, slot) {
      var m :| 0 <= m < k && FirstSlot(h, f.key, f.entries[m]) == slot;
    }
  }

  lemma FirstIsUnasked(h: Hashing, f: File, k: int)
    requires 0 <= k < |f.entries|
    ensures FirstOfSlot(h, f, k) <==> !Asked(h, f, k, FirstSlot(h, f.key, f.entries[k]))
  {
    hide NewSlot;
  }

  lemma NewPlaced(h: Hashing, s: State, r: Record, usable: bool)
    requires s.idCount !in s.info
    ensures var t, slot := LoadNewOne(h, s, r, usable), FirstSlot(h, s.key, r);
            && s.idCount in t.info
            && (usable ==> t.newTable == s.newTable && t.info[s.idCount].refCount == 0)
            && (!usable ==> forall x :: x in t.newTable <==> x in s.newTable || x == slot)
            && (!usable ==> (t.info[s.idCount].refCount > 0 <==> slot !in s.newTable))
  {
    hide NewSlot;
  }

  lemma PlacedMore(h: Hashing, f: File, k: int, s: State, t: State)
    requires 0 <= k < |f.entries| && Placed(h, f, k, s) && s.idCount == k && s.idCount !in s.info && s.key == f.key
    requires t == LoadNewOne(h, s, f.entries[k], f.Usable())
    ensures Placed(h, f, k + 1, t)
  {
    hide FirstSlot, Asked, FirstOfSlot, LoadNewOne;
    NewPlaced(h, s, f.entries[k], f.Usable());
    LoadNewOneFields(h, s, f.entries[k], f.Usable());
    FirstIsUnasked(h, f, k);
    if !f.Usable() {
      forall slot ensures slot in t.newTable <==> Asked(h, f, k + 1, slot) {
        AskedMore(h, f, k, slot);
      }
    }
  }

  lemma {:induction false} LoadNewPlaced(h: Hashing, f: File, k: nat)
    requires k <= |f.entries|
    ensures Placed(h, f, k, LoadNew(h, f, k))
  {
    hide Loading, LoadNewOne, Placed;
    if k == 0 {
      PlacedNone(h, f);
    } else {
      LoadNewPlaced(h, f, k - 1);
      LoadNewKeeps(h, f, k - 1);
      var s := LoadNew(h, f, k - 1);
      NextIdFree(h, s);
      PlacedMore(h, f, k - 1, s, LoadNew(h, f, k));
    }
  }

  lemma PlacedNone(h: Hashing, f: File)
    ensures Placed(h, f, 0, Empty(f.key))
  {
    hide FirstSlot;
  }

  lemma {:induction false} LoadTriedPlaced(h: Hashing, f: File, k: nat)
    requires k <= |f.triedEntries|
    ensures Placed(h, f, |f.entries|, LoadTried(h, f, k))
  {
    hide Loading, LoadTriedOne, LoadNew, Asked, FirstOfSlot;
    if k == 0 {
      LoadNewPlaced(h, f, |f.entries|);
    } else {
      LoadTriedPlaced(h, f, k - 1);
      LoadTriedKeeps(h, f, k - 1);
      var s := LoadTried(h, f, k - 1);
      NextIdFree(h, s);
      LoadTriedOneFields(h, s, f.triedEntries[k - 1]);
    }
  }

  lemma {:induction false} UnusableBuckets(h: Hashing, f: File, b: nat)
    requires !f.Usable() && b <= |f.buckets|
    ensures LoadBuckets(h, f, b) == LoadTried(h, f, |f.triedEntries|)
  {
    hide LoadTried;
    if b > 0 {
      UnusableBuckets(h, f, b - 1);
      UnusableBucket(h, LoadBuckets(h, f, b - 1), b - 1, f.buckets[b - 1], |f.buckets[b - 1]|, |f.entries|);
    }
  }

  lemma {:induction false} UnusableBucket(h: Hashing, s: State, bucket: int, indices: seq<int>, k: nat, count: int)
    requires k <= |indices|
    ensures LoadBucket(h, s, bucket, indices, k, count, false) == s
  {
    if k > 0 {
      UnusableBucket(h, s, bucket, indices, k - 1, count);
    }
  }

  // ---------------------------------------------------------------- references from the lists

  /** One of the first `k` numbers in the list of bucket `b` asks for this slot and has room. */
  ghost predicate Wanted(h: Hashing, f: File, b: int, k: int, slot: Slot) {
    exists i :: 0 <= i < k && HasRoom(h, f, b, i) && SlotAt(h, f, b, i) == slot
  }

  /** After the first `k` numbers in the list of bucket `b`. */
  ghost predicate Given(h: Hashing, f: File, b: int, k: int, s: State)
    requires 0 <= b < |f.buckets| && 0 <= k <= |f.buckets[b]|
  {
    && s.key == f.key
    && (forall id :: 0 <= id < |f.entries| ==>
          && id in s.info && s.info[id].service == f.entries[id].service
          && s.info[id].refCount == Refs(h, f, id, b) + if Gets(h, f, id, b, k) then 1 else 0)
    && (forall slot :: slot in s.newTable && slot.0 >= b ==> Wanted(h, f, b, k, slot))
    && (forall slot :: Wanted(h, f, b, k, slot) ==> slot in s.newTable)
  }

  lemma GetsMore(h: Hashing, f: File, n: int, b: int, k: int)
    requires 0 <= b < |f.buckets| && 0 <= k < |f.buckets[b]|
    ensures Gets(h, f, n, b, k + 1) <==> Gets(h, f, n, b, k) || (f.buckets[b][k] == n && Wins(h, f, b, k))
  {
    hide Wins;
    if Gets(h, f, n, b, k) {
      var i :| 0 <= i < k && f.buckets[b][i] == n && Wins(h, f, b, i);
    }
  }

  lemma WantedMore(h: Hashing, f: File, b: int, k: int, slot: Slot)
    requires 0 <= k
    ensures Wanted(h, f, b, k + 1, slot) <==> Wanted(h, f, b, k, slot) || (HasRoom(h, f, b, k) && SlotAt(h, f, b, k) == slot)
  {
    hide HasRoom;
    if Wanted(h, f, b, k, slot) {
      WantedBy(h, f, b, k, k + 1, slot);
    }
  }

  lemma WantedBy(h: Hashing, f: File, b: int, k: int, l: int, slot: Slot)
    requires Wanted(h, f, b, k, slot) && k <= l
    ensures Wanted(h, f, b, l, slot)
  {
    hide HasRoom, SlotAt;
  }

  /** Who got a reference in the bucket has its slot there. */
  lemma GetsIsWanted(h: Hashing, f: File, n: int, b: int, k: int)
    requires 0 <= b < |f.buckets| && 0 <= k <= |f.buckets[b]| && 0 <= n < |f.entries| && Gets(h, f, n, b, k)
    ensures Wanted(h, f, b, k, SlotIn(h, f.key, b, f.entries[n].service))
  {
    hide Refs, SlotIn;
    var i :| 0 <= i < k && f.buckets[b][i] == n && Wins(h, f, b, i);
    assert HasRoom(h, f, b, i) && SlotAt(h, f, b, i) == SlotIn(h, f.key, b, f.entries[n].service);
  }

  lemma WinsIsUnwanted(h: Hashing, f: File, b: int, k: int)
    requires IsIndex(f, b, k)
    ensures Wins(h, f, b, k) <==> HasRoom(h, f, b, k) && !Wanted(h, f, b, k, SlotAt(h, f, b, k))
  {
    hide Refs, SlotAt;
    if HasRoom(h, f, b, k) && !Wanted(h, f, b, k, SlotAt(h, f, b, k)) {
      forall i | 0 <= i < k && HasRoom(h, f, b, i) ensures SlotAt(h, f, b, i) != SlotAt(h, f, b, k) {
      }
    }
    if Wins(h, f, b, k) {
      NotWanted(h, f, b, k);
    }
  }

  lemma NotWanted(h: Hashing, f: File, b: int, k: int)
    requires IsIndex(f, b, k) && Wins(h, f, b, k)
    ensures !Wanted(h, f, b, k, SlotAt(h, f, b, k))
  {
    hide HasRoom, SlotAt;
  }

  lemma GivenSkip(h: Hashing, f: File, b: int, k: int, s: State)
    requires 0 <= b < |f.buckets| && 0 <= k < |f.buckets[b]| && Given(h, f, b, k, s)
    requires !Wins(h, f, b, k) && (HasRoom(h, f, b, k) ==> Wanted(h, f, b, k, SlotAt(h, f, b, k)))
    ensures Given(h, f, b, k + 1, s)
  {
    hide Wins, HasRoom, Gets, Wanted, Refs, SlotAt;
    forall id | 0 <= id < |f.entries| ensures Gets(h, f, id, b, k + 1) <==> Gets(h, f, id, b, k) {
      GetsMore(h, f, id, b, k);
    }
    forall slot ensures Wanted(h, f, b, k + 1, slot) <==> Wanted(h, f, b, k, slot) {
      WantedMore(h, f, b, k, slot);
    }
  }

  lemma GivenOne(h: Hashing, f: File, b: int, k: int, s: State)
    requires 0 <= b < |f.buckets| && 0 <= k < |f.buckets[b]| && Given(h, f, b, k, s) && Wins(h, f, b, k) && IsIndex(f, b, k)
    requires !Gets(h, f, f.buckets[b][k], b, k)
    ensures f.buckets[b][k] in s.info && Given(h, f, b, k + 1, Referenced(s, SlotAt(h, f, b, k), f.buckets[b][k]))
  {
    hide Wins, Gets, Wanted, Refs, SlotAt;
    var n, slot := f.buckets[b][k], SlotAt(h, f, b, k);
    var r := Referenced(s, slot, n);
    WinsIsUnwanted(h, f, b, k);
    hide HasRoom;
    forall id | 0 <= id < |f.entries|
      ensures id in r.info && r.info[id].service == f.entries[id].service
      ensures r.info[id].refCount == Refs(h, f, id, b) + if Gets(h, f, id, b, k + 1) then 1 else 0
    {
      GetsMore(h, f, id, b, k);
    }
    forall x ensures Wanted(h, f, b, k + 1, x) <==> Wanted(h, f, b, k, x) || x == slot {
      WantedMore(h, f, b, k, x);
    }
  }

  lemma GivenStep(h: Hashing, f: File, b: int, k: int, s: State)
    requires f.Usable() && 0 <= b < |f.buckets| && 0 <= k < |f.buckets[b]| && Given(h, f, b, k, s)
    ensures Given(h, f, b, k + 1, LoadIndex(h, s, b, f.buckets[b][k], |f.entries|, true))
  {
    hide Wins, Gets, Wanted, Refs, SlotIn;
    var n := f.buckets[b][k];
    if IsIndex(f, b, k) {
      var slot := SlotIn(h, f.key, b, f.entries[n].service);
      assert SlotAt(h, f, b, k) == slot && slot.0 == b by { SlotBucket(h, f.key, b, f.entries[n].service); }
      WinsIsUnwanted(h, f, b, k);
      if Gets(h, f, n, b, k) {
        GetsIsWanted(h, f, n, b, k);
      }
      if Wins(h, f, b, k) {
        GivenOne(h, f, b, k, s);
      } else {
        GivenSkip(h, f, b, k, s);
      }
    } else {
      NoWin(h, f, b, k);
      GivenSkip(h, f, b, k, s);
    }
  }

  lemma NoWin(h: Hashing, f: File, b: int, k: int)
    requires !IsIndex(f, b, k)
    ensures !Wins(h, f, b, k) && !HasRoom(h, f, b, k)
  {
  }

  lemma SlotBucket(h: Hashing, key: Key, b: int, v: Service)
    ensures SlotIn(h, key, b, v).0 == b
  {
  }

  lemma {:induction false} BucketGiven(h: Hashing, f: File, b: int, k: nat, s: State)
    requires f.Usable() && 0 <= b < |f.buckets| && k <= |f.buckets[b]| && Given(h, f, b, 0, s)
    ensures Given(h, f, b, k, LoadBucket(h, s, b, f.buckets[b], k, |f.entries|, true))
    decreases k
  {
    hide Given, LoadIndex;
    if k > 0 {
      BucketGiven(h, f, b, k - 1, s);
      GivenStep(h, f, b, k - 1, LoadBucket(h, s, b, f.buckets[b], k - 1, |f.entries|, true));
    }
  }

  /** Between two buckets. */
  ghost predicate GivenUpTo(h: Hashing, f: File, b: int, s: State)
    requires 0 <= b <= |f.buckets|
  {
    && s.key == f.key
    && (forall id :: 0 <= id < |f.entries| ==>
          id in s.info && s.info[id].service == f.entries[id].service && s.info[id].refCount == Refs(h, f, id, b))
    && (forall slot :: slot in s.newTable ==> slot.0 < b)
  }

  lemma GivenStart(h: Hashing, f: File, b: int, s: State)
    requires 0 <= b < |f.buckets| && GivenUpTo(h, f, b, s)
    ensures Given(h, f, b, 0, s)
  {
    hide Wins, HasRoom, Refs, SlotAt;
    forall id ensures !Gets(h, f, id, b, 0) {
    }
    forall slot ensures !Wanted(h, f, b, 0, slot) {
    }
  }

  lemma GivenEnd(h: Hashing, f: File, b: int, s: State)
    requires 0 <= b < |f.buckets| && Given(h, f, b, |f.buckets[b]|, s)
    ensures GivenUpTo(h, f, b + 1, s)
  {
    hide Wins, HasRoom, Gets;
    forall slot | slot in s.newTable ensures slot.0 < b + 1 {
      if slot.0 >= b {
        WantedThere(h, f, b, |f.buckets[b]|, slot);
      }
    }
  }

  lemma WantedThere(h: Hashing, f: File, b: int, k: int, slot: Slot)
    requires Wanted(h, f, b, k, slot)
    ensures slot.0 == b
  {
    hide Refs;
    var i :| 0 <= i < k && HasRoom(h, f, b, i) && SlotAt(h, f, b, i) == slot;
  }

  lemma {:induction false} BucketsGiven(h: Hashing, f: File, b: nat)
    requires f.Usable() && b <= |f.buckets|
    ensures GivenUpTo(h, f, b, LoadBuckets(h, f, b))
  {
    hide LoadTried, LoadBucket, GivenUpTo;
    if b == 0 {
      NothingGiven(h, f);
    } else {
      BucketsGiven(h, f, b - 1);
      var s := LoadBuckets(h, f, b - 1);
      GivenStart(h, f, b - 1, s);
      BucketGiven(h, f, b - 1, |f.buckets[b - 1]|, s);
      GivenEnd(h, f, b - 1, LoadBuckets(h, f, b));
    }
  }

  lemma NothingGiven(h: Hashing, f: File)
    requires f.Usable()
    ensures GivenUpTo(h, f, 0, LoadTried(h, f, |f.triedEntries|))
  {
    hide LoadTried, Loading, Asked, FirstOfSlot, Entered;
    var s, n := LoadTried(h, f, |f.triedEntries|), Count(f);
    LoadTriedKeeps(h, f, |f.triedEntries|);
    LoadTriedPlaced(h, f, |f.triedEntries|);
    LoadTriedMirrors(h, f, |f.triedEntries|);
    NewFirst(h, f, n);
    forall id | 0 <= id < |f.entries| ensures s.info[id].service == f.entries[id].service {
      assert Entered(h, f, n)[id] == id;
      assert MadeOf(s.info[id], f, id);
    }
  }

  // ---------------------------------------------------------------- the exact condition, on the file

  /** The entry of a new record has a reference exactly if the record stays. */
  lemma StaysExactly(h: Hashing, f: File, n: int)
    requires 0 <= n < |f.entries|
    ensures n in Unpruned(h, f).info && (Unpruned(h, f).info[n].refCount > 0 <==> Stays(h, f, n))
  {
    hide LoadBuckets, LoadTried, Refs, FirstOfSlot, Asked;
    if f.Usable() {
      BucketsGiven(h, f, |f.buckets|);
    } else {
      UnusableBuckets(h, f, |f.buckets|);
      LoadTriedPlaced(h, f, |f.triedEntries|);
    }
  }

  /** No record that stays shares its address with another one that enters. */
  ghost predicate UnsharedFile(h: Hashing, f: File) {
    forall x, y :: 0 <= x < Count(f) && 0 <= y < Count(f) && x != y && Enters(h, f, x) && Enters(h, f, y) && Stays(h, f, x) ==>
      IpAt(f, x) != IpAt(f, y)
  }

  /** Every record that enters and stays has times that make sense. */
  ghost predicate StayingTimesFile(h: Hashing, f: File) {
    forall x :: 0 <= x < Count(f) && Enters(h, f, x) && Stays(h, f, x) ==>
      RecordAt(f, x).lastSuccess >= if x < |f.entries| then 0 else 1
  }

  lemma UnprunedMirrors(h: Hashing, f: File)
    ensures Mirrors(h, f, Count(f), Unpruned(h, f))
  {
    hide LoadBuckets, LoadTried, Loading, Mirrors, OnlyReferences;
    LoadBucketsKeeps(h, f, |f.buckets|);
    LoadTriedMirrors(h, f, |f.triedEntries|);
    MirrorsReferences(h, f, Count(f), LoadTried(h, f, |f.triedEntries|), Unpruned(h, f));
  }

  /** An entry is dropped exactly if its record does not stay. */
  lemma IdleExactly(h: Hashing, f: File, id: int)
    requires 0 <= id < |Entered(h, f, Count(f))|
    ensures var s, n := Unpruned(h, f), Entered(h, f, Count(f))[id];
            && 0 <= n < Count(f) && Enters(h, f, n) && id in s.info && MadeOf(s.info[id], f, n)
            && (id in Idle(s) <==> !Stays(h, f, n))
  {
    hide LoadBuckets, Entered, Enters, Stays, Unpruned;
    UnprunedMirrors(h, f);
    EnteredIs(h, f, Count(f));
    NewFirst(h, f, Count(f));
    var s, n := Unpruned(h, f), Entered(h, f, Count(f))[id];
    if n < |f.entries| {
      SamePlace(h, f, id, n);
      StaysExactly(h, f, n);
      NoNegative(h, f, n);
    } else {
      TriedStays(h, f, n);
    }
  }

  lemma TriedStays(h: Hashing, f: File, n: int)
    requires |f.entries| <= n < Count(f)
    ensures Stays(h, f, n)
  {
  }

  lemma SamePlace(h: Hashing, f: File, id: int, n: int)
    requires 0 <= id < |Entered(h, f, Count(f))| && n == Entered(h, f, Count(f))[id] && 0 <= n < |f.entries|
    ensures id == n
  {
    hide Entered, Enters;
    EnteredIs(h, f, Count(f));
    NewFirst(h, f, Count(f));
    assert Entered(h, f, Count(f))[n] == n;
  }

  /** Counts of references are not negative. */
  lemma NoNegative(h: Hashing, f: File, n: int)
    requires n in Unpruned(h, f).info
    ensures Unpruned(h, f).info[n].refCount >= 0
  {
    hide LoadBuckets;
    LoadedSettled(h, f);
    var s := Unpruned(h, f);
    assert EntryOk(h, s, n, n in Idle(s));
  }

  lemma UnsharedExactly(h: Hashing, f: File)
    ensures Unshared(Unpruned(h, f)) <==> UnsharedFile(h, f)
  {
    hide LoadBuckets, Entered, Enters, Stays, Unpruned, Idle, RecordAt;
    var s, l := Unpruned(h, f), Entered(h, f, Count(f));
    UnprunedMirrors(h, f);
    EnteredIs(h, f, Count(f));
    if UnsharedFile(h, f) {
      forall x, y | x in s.info && y in s.info && x !in Idle(s) && x != y ensures s.info[x].service.ip != s.info[y].service.ip {
        IdleExactly(h, f, x);
        IdleExactly(h, f, y);
        assert l[x] != l[y];
        assert IpAt(f, l[x]) != IpAt(f, l[y]);
      }
    }
    if Unshared(s) {
      forall x, y | 0 <= x < Count(f) && 0 <= y < Count(f) && x != y && Enters(h, f, x) && Enters(h, f, y) && Stays(h, f, x)
        ensures IpAt(f, x) != IpAt(f, y)
      {
        var i :| 0 <= i < |l| && l[i] == x;
        var j :| 0 <= j < |l| && l[j] == y;
        IdleExactly(h, f, i);
        IdleExactly(h, f, j);
        assert s.info[i].service.ip != s.info[j].service.ip;
      }
    }
  }

  lemma TimesExactly(h: Hashing, f: File)
    ensures StayingTimes(Unpruned(h, f)) <==> StayingTimesFile(h, f)
  {
    hide LoadBuckets, Entered, Enters, Stays, Unpruned, Idle, RecordAt, TimeOk;
    var s, l := Unpruned(h, f), Entered(h, f, Count(f));
    UnprunedMirrors(h, f);
    EnteredIs(h, f, Count(f));
    if StayingTimesFile(h, f) {
      forall x | x in s.info && x !in Idle(s) ensures TimeOk(s.info[x]) {
        IdleExactly(h, f, x);
      }
    }
    if StayingTimes(s) {
      forall x | 0 <= x < Count(f) && Enters(h, f, x) && Stays(h, f, x)
        ensures RecordAt(f, x).lastSuccess >= if x < |f.entries| then 0 else 1
      {
        var i :| 0 <= i < |l| && l[i] == x;
        IdleExactly(h, f, i);
      }
    }
  }

  /**
   * Which files give a manager that every operation can go on with: exactly those in which no record that stays shares
   * its address with another one that enters; and its own check passes exactly if also the times of those make sense.
   */
  lemma LoadedOnFile(h: Hashing, f: File)
    ensures Steady(h, Loaded(h, f)) <==> UnsharedFile(h, f)
    ensures Inv(h, Loaded(h, f)) <==> UnsharedFile(h, f) && StayingTimesFile(h, f)
  {
    hide Midway, AddrOk, TimesOk, Unshared, StayingTimes, UnsharedFile, StayingTimesFile, Loaded, Unpruned, NoRepeats, SaneTimes;
    LoadedExactly(h, f);
    UnsharedExactly(h, f);
    TimesExactly(h, f);
  }
}
