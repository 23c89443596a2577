/** The address manager as the program keeps it: maps, a vector, two bucket arrays and counters (src/addrman.cpp). */
module AddrManTable {
  import opened Common
  import opened AddrMan
  import opened AddrManSteps
  import opened AddrManOps
  import opened AddrManAdd

  /** A bucket array as a table; -1 marks a free slot. */
  ghost function TableOf(a: array2<int>): Table
    reads a
  {
    map b: int, p: int | 0 <= b < a.Length0 && 0 <= p < a.Length1 && a[b, p] != -1 :: (b, p) := a[b, p]
  }

  method SetSlot(a: array2<int>, b: int, p: int, id: int)
    requires 0 <= b < a.Length0 && 0 <= p < a.Length1
    modifies a
    ensures id != -1 ==> TableOf(a) == old(TableOf(a))[(b, p) := id]
    ensures id == -1 ==> TableOf(a) == old(TableOf(a)) - {(b, p)}
  {
    a[b, p] := id;
  }

  lemma TableAt(a: array2<int>, b: int, p: int)
    requires 0 <= b < a.Length0 && 0 <= p < a.Length1
    ensures a[b, p] != -1 <==> (b, p) in TableOf(a)
    ensures a[b, p] != -1 ==> TableOf(a)[(b, p)] == a[b, p]
  {
  }

  class AddrManager {
    const h: Hashing
    var nKey: Key
    var nIdCount: int
    var mapInfo: map<int, Info>
    var mapAddr: map<NetAddr, int>
    var vRandom: seq<int>
    var nTried: int
    const vvTried: array2<int>
    var nNew: int
    const vvNew: array2<int>

    ghost predicate Shaped() {
      && vvTried.Length0 == TRIED_BUCKET_COUNT && vvTried.Length1 == BUCKET_SIZE
      && vvNew.Length0 == NEW_BUCKET_COUNT && vvNew.Length1 == BUCKET_SIZE && vvNew != vvTried
    }

    ghost function Contents(): State
      reads this, vvTried, vvNew
    {
      State(nKey, nIdCount, mapInfo, mapAddr, vRandom, nTried, TableOf(vvTried), nNew, TableOf(vvNew))
    }

    ghost predicate Valid()
      reads this, vvTried, vvNew
    {
      Shaped() && Steady(h, Contents())
    }

    /** A new manager, with a key drawn at random. */
    constructor (h: Hashing, key: Key)
      ensures Valid() && this.h == h && Contents() == Empty(key) && fresh(vvTried) && fresh(vvNew)
    {
      this.h := h;
      vvTried := new int[TRIED_BUCKET_COUNT, BUCKET_SIZE]((_, _) => -1);
      vvNew := new int[NEW_BUCKET_COUNT, BUCKET_SIZE]((_, _) => -1);
      nKey, nIdCount, nTried, nNew := key, 0, 0, 0;
      mapInfo, mapAddr, vRandom := map[], map[], [];
      new;
      assert Contents() == Empty(key);
      EmptyInv(h, key);
    }

    method SwapRandom(i: int, j: int)
      requires IndexOk(Contents()) && 0 <= i < |vRandom| && 0 <= j < |vRandom|
      modifies this`mapInfo, this`vRandom
      ensures Contents() == Swapped(old(Contents()), i, j)
    {
      if i == j {
        return;
      }
      var id1, id2 := vRandom[i], vRandom[j];
      assert id1 in mapInfo && id2 in mapInfo;
      mapInfo := mapInfo[id1 := mapInfo[id1].(randomPos := j)];
      mapInfo := mapInfo[id2 := mapInfo[id2].(randomPos := i)];
      vRandom := vRandom[i := id2];
      vRandom := vRandom[j := id1];
    }

    method Create(a: Address, source: NetAddr) returns (id: int)
      modifies this`nIdCount, this`mapInfo, this`mapAddr, this`vRandom
      ensures id == old(nIdCount) && Contents() == Created(old(Contents()), a, source)
    {
      id := nIdCount;
      nIdCount := nIdCount + 1;
      mapInfo := mapInfo[id := Info(a.service, a.services, a.time, source, 0, 0, 0, 0, false, -1)];
      mapAddr := mapAddr[a.service.ip := id];
      mapInfo := mapInfo[id := mapInfo[id].(randomPos := |vRandom|)];
      vRandom := vRandom + [id];
      assert mapInfo == old(mapInfo)[id := mapInfo[id]];
    }

    /** The entry must not be in the tried table and have no references. */
    method Delete(id: int)
      requires IndexOk(Contents()) && id in mapInfo && !mapInfo[id].inTried && mapInfo[id].refCount == 0
      modifies this`mapInfo, this`mapAddr, this`vRandom, this`nNew
      ensures Contents() == Deleted(old(Contents()), id)
    {
      hide TableOf, Swapped;
      var info := mapInfo[id];
      assert 0 <= info.randomPos < |vRandom|;
      hide IndexOk;
      SwappedKeeps(Contents(), info.randomPos, |vRandom| - 1);
      SwapRandom(info.randomPos, |vRandom| - 1);
      vRandom := vRandom[..|vRandom| - 1];
      mapAddr := mapAddr - {info.service.ip};
      mapInfo := mapInfo - {id};
      nNew := nNew - 1;
    }

    /** One reference less: the slot is freed and the count lowered. */
    method Unreference(b: int, p: int)
      requires Shaped() && 0 <= b < NEW_BUCKET_COUNT && 0 <= p < BUCKET_SIZE && vvNew[b, p] != -1 && vvNew[b, p] in mapInfo
      modifies this`mapInfo, vvNew
      ensures (b, p) in old(Contents()).newTable
      ensures Contents() == Unreferenced(old(Contents()), (b, p))
    {
      hide TableOf;
      TableAt(vvNew, b, p);
      var id := vvNew[b, p];
      mapInfo := mapInfo[id := mapInfo[id].(refCount := mapInfo[id].refCount - 1)];
      SetSlot(vvNew, b, p, -1);
    }

    method ClearNew(b: int, p: int)
      requires Shaped() && IndexOk(Contents()) && 0 <= b < NEW_BUCKET_COUNT && 0 <= p < BUCKET_SIZE
      requires (b, p) in Contents().newTable ==>
        var id := Contents().newTable[(b, p)]; id in mapInfo && mapInfo[id].refCount > 0 && !mapInfo[id].inTried
      modifies this`mapInfo, this`mapAddr, this`vRandom, this`nNew, vvNew
      ensures Contents() == Cleared(old(Contents()), (b, p))
    {
      hide IndexOk, Deleted, TableOf;
      TableAt(vvNew, b, p);
      if vvNew[b, p] != -1 {
        var id := vvNew[b, p];
        UnreferencedIndex(Contents(), (b, p));
        Unreference(b, p);
        if mapInfo[id].refCount == 0 {
          Delete(id);
        }
      }
    }

    /** Take the entry in a slot out of the tried set. */
    method Demote(kBucket: int, kPos: int) returns (id: int)
      requires Shaped() && 0 <= kBucket < TRIED_BUCKET_COUNT && 0 <= kPos < BUCKET_SIZE
      requires vvTried[kBucket, kPos] != -1 && vvTried[kBucket, kPos] in mapInfo
      modifies this`mapInfo, this`nTried, vvTried
      ensures (kBucket, kPos) in old(Contents()).triedTable && id == old(Contents()).triedTable[(kBucket, kPos)]
      ensures Contents() == Demoted(old(Contents()), (kBucket, kPos))
    {
      hide TableOf;
      TableAt(vvTried, kBucket, kPos);
      id := vvTried[kBucket, kPos];
      mapInfo := mapInfo[id := mapInfo[id].(inTried := false)];
      SetSlot(vvTried, kBucket, kPos, -1);
      nTried := nTried - 1;
    }

    /** Enter an unreferenced entry into the new set again. */
    method Reenter(b: int, p: int, id: int)
      requires Shaped() && 0 <= b < NEW_BUCKET_COUNT && 0 <= p < BUCKET_SIZE && id != -1
      requires id in mapInfo && mapInfo[id].refCount == 0
      modifies this`mapInfo, this`nNew, vvNew
      ensures Contents() == Referenced(old(Contents()), (b, p), id).(nNew := old(nNew) + 1)
    {
      hide TableOf;
      mapInfo := mapInfo[id := mapInfo[id].(refCount := 1)];
      SetSlot(vvNew, b, p, id);
      nNew := nNew + 1;
    }

    /** Make room in the tried table: its entry moves back to the new table, deleting whatever is there. */
    method Evict(kBucket: int, kPos: int, ghost limbo: set<int>, ghost extra: int)
      requires Shaped() && Midway(h, Contents(), limbo, extra)
      requires 0 <= kBucket < TRIED_BUCKET_COUNT && 0 <= kPos < BUCKET_SIZE && vvTried[kBucket, kPos] != -1
      modifies this`mapInfo, this`mapAddr, this`vRandom, this`nNew, this`nTried, vvNew, vvTried
      ensures (kBucket, kPos) in old(Contents()).triedTable
      ensures Contents() == Evicted(h, old(Contents()), (kBucket, kPos), limbo, extra)
    {
      hide IndexOk, NewTableOk, TriedTableOk, EntriesOk, CountsOk, Cleared, TableOf, TriedBucket, NewBucket, Position;
      TableAt(vvTried, kBucket, kPos);
      DemotedMidway(h, Contents(), (kBucket, kPos), limbo, extra);
      var idEvict := Demote(kBucket, kPos);
      ghost var d, l := Contents(), limbo + {idEvict};
      var uBucket := NewBucket(h, nKey, mapInfo[idEvict].service, mapInfo[idEvict].source);
      var uPos := Position(h, nKey, true, uBucket, mapInfo[idEvict].service);
      ClearedMidway(h, d, (uBucket, uPos), l, extra + 1);
      Occupant(h, d, (uBucket, uPos), l, extra + 1);
      ClearNew(uBucket, uPos);
      assert (uBucket, uPos) !in Contents().newTable;
      InLimbo(h, Contents(), idEvict, l, extra + 1);
      Reenter(uBucket, uPos, idEvict);
    }

    /** Put an entry into its slot of the tried table. */
    method Promote(id: int)
      requires Shaped() && id in mapInfo && id != -1
      modifies this`mapInfo, this`nTried, vvTried
      ensures Contents() == Promoted(h, old(Contents()), id)
    {
      hide TableOf, TriedBucket, Position;
      var kBucket := TriedBucket(h, nKey, mapInfo[id].service);
      SetSlot(vvTried, kBucket, Position(h, nKey, false, kBucket, mapInfo[id].service), id);
      nTried := nTried + 1;
      mapInfo := mapInfo[id := mapInfo[id].(inTried := true)];
    }

    /** The second half of `MakeTried`. */
    method Seat(id: int)
      requires Shaped() && Midway(h, Contents(), {} + {id}, 1) && id in mapInfo && id != -1
      modifies this`mapInfo, this`mapAddr, this`vRandom, this`nNew, this`nTried, vvNew, vvTried
      ensures Contents() == Seated(h, old(Contents()), id)
    {
      hide Midway, Evicted, TableOf, TriedBucket, Position;
      ghost var a := Contents();
      var kBucket := TriedBucket(h, nKey, mapInfo[id].service);
      var kPos := Position(h, nKey, false, kBucket, mapInfo[id].service);
      TableAt(vvTried, kBucket, kPos);
      if vvTried[kBucket, kPos] != -1 {
        EvictedEffect(h, a, (kBucket, kPos), {} + {id}, 1);
        Evict(kBucket, kPos, {} + {id}, 1);
      }
      assert (kBucket, kPos) !in Contents().triedTable;
      Promote(id);
    }

    /** Move an entry from the new table to the tried table. */
    method MakeTried(id: int)
      requires Shaped() && Settled(h, Contents()) && id in mapInfo && !mapInfo[id].inTried && id != -1
      modifies this`mapInfo, this`mapAddr, this`vRandom, this`nNew, this`nTried, vvNew, vvTried
      ensures Contents() == MadeTried(h, old(Contents()), id)
    {
      hide Midway, Sweep, Seated, Unlisted, TableOf;
      ghost var s := Contents();
      UncountedMidway(h, s, id);
      UnlistedEntry(s, id);
      SweepNew(id);
      nNew := nNew - 1;
      assert mapInfo[id].refCount == 0;
      Seat(id);
    }

    /** Look at the entry's slot in one bucket, and drop the reference if it is there. */
    method SweepBucket(id: int, bucket: int)
      requires Shaped() && id in mapInfo && id != -1 && 0 <= bucket < NEW_BUCKET_COUNT
      modifies this`mapInfo, vvNew
      ensures Contents() == SweepOne(h, old(Contents()), id, bucket)
    {
      hide TableOf, Position;
      var pos := Position(h, nKey, true, bucket, mapInfo[id].service);
      TableAt(vvNew, bucket, pos);
      if vvNew[bucket, pos] == id {
        Unreference(bucket, pos);
      }
    }

    /** Remove an entry from all buckets of the new table. */
    method SweepNew(id: int)
      requires Shaped() && id in mapInfo && id != -1
      modifies this`mapInfo, vvNew
      ensures Contents() == Sweep(h, old(Contents()), id, 0)
    {
      hide TableOf, SweepOne;
      ghost var s := Contents();
      var bucket := 0;
      while bucket < NEW_BUCKET_COUNT
        invariant 0 <= bucket <= NEW_BUCKET_COUNT && id in mapInfo
        invariant Sweep(h, Contents(), id, bucket) == Sweep(h, s, id, 0)
      {
        SweepOneHas(h, Contents(), id, bucket);
        SweepBucket(id, bucket);
        bucket := bucket + 1;
      }
    }

    // -------------------------------------------------------------- the operations

    /** `Find`. */
    method Find(ip: NetAddr) returns (id: Option<int>)
      ensures id == if ip in mapAddr && mapAddr[ip] in mapInfo then Some(mapAddr[ip]) else None
    {
      if ip !in mapAddr {
        return None;
      }
      if mapAddr[ip] in mapInfo {
        return Some(mapAddr[ip]);
      }
      return None;
    }

    /** `Find`, then the check that port and address are exactly the same. */
    method FindExact(service: Service) returns (id: Option<int>)
      ensures id == Known(Contents(), service)
    {
      id := Find(service.ip);
      if id.Some? && mapInfo[id.value].service != service {
        return None;
      }
    }

    /** `Attempt_`. */
    method Attempt(service: Service, time: int)
      requires Valid()
      modifies this`mapInfo
      ensures Valid() && Contents() == Attempted(old(Contents()), service, time)
    {
      hide Midway, TableOf;
      MarkedSteady(h, Contents(), service, time);
      var id := FindExact(service);
      if id.Some? {
        mapInfo := mapInfo[id.value := mapInfo[id.value].(lastTry := time, attempts := mapInfo[id.value].attempts + 1)];
      }
    }

    /** `Connected_`. */
    method Connected(service: Service, time: int)
      requires Valid()
      modifies this`mapInfo
      ensures Valid() && Contents() == AddrManOps.Connected(old(Contents()), service, time)
    {
      hide Midway, TableOf;
      MarkedSteady(h, Contents(), service, time);
      var id := FindExact(service);
      if id.Some? && time - mapInfo[id.value].time > 20 * 60 {
        mapInfo := mapInfo[id.value := mapInfo[id.value].(time := time % 0x1_0000_0000)];
      }
    }

    /** The search of `Good_`, from a random bucket around: for an entry of the new table it never comes back empty. */
    method SearchBucket(id: int, nRnd: nat) returns (uBucket: int)
      requires Shaped() && Settled(h, Contents()) && id in mapInfo && !mapInfo[id].inTried && id != -1 && nRnd < NEW_BUCKET_COUNT
      ensures 0 <= uBucket < NEW_BUCKET_COUNT
      ensures var slot := SlotIn(h, nKey, uBucket, mapInfo[id].service);
              slot in Contents().newTable && Contents().newTable[slot] == id
    {
      hide TableOf, Position, Midway;
      ghost var bucket := FindsBucket(h, Contents(), id);
      ghost var stop := if bucket >= nRnd then bucket - nRnd else bucket - nRnd + NEW_BUCKET_COUNT;
      assert (stop + nRnd) % NEW_BUCKET_COUNT == bucket by { Around(bucket, nRnd, stop); }
      uBucket := -1;
      var n := 0;
      while n < NEW_BUCKET_COUNT
        invariant 0 <= n <= stop && uBucket == -1
      {
        var b := (n + nRnd) % NEW_BUCKET_COUNT;
        var pos := Position(h, nKey, true, b, mapInfo[id].service);
        TableAt(vvNew, b, pos);
        if vvNew[b, pos] == id {
          uBucket := b;
          break;
        }
        n := n + 1;
      }
    }

    /** `Good_`. */
    method Good(service: Service, time: int, nRnd: nat)
      requires Valid() && nRnd < NEW_BUCKET_COUNT
      modifies this`mapInfo, this`mapAddr, this`vRandom, this`nNew, this`nTried, vvNew, vvTried
      ensures Valid() && Contents() == AddrManOps.Good(h, old(Contents()), service, time)
    {
      hide Midway, TableOf, MadeTried;
      ghost var s := Contents();
      GoodSteady(h, s, service, time);
      var k := FindExact(service);
      if k.None? {
        return;
      }
      var id := k.value;
      SucceededSettled(h, s, id, time);
      IdsNonNegative(h, s, id);
      mapInfo := mapInfo[id := mapInfo[id].(lastSuccess := time, lastTry := time, attempts := 0)];
      if mapInfo[id].inTried {
        return;
      }
      var uBucket := SearchBucket(id, nRnd);
      assert uBucket != -1;
      MakeTried(id);
    }

    /** One reference more. */
    method Reference(b: int, p: int, id: int)
      requires Shaped() && 0 <= b < NEW_BUCKET_COUNT && 0 <= p < BUCKET_SIZE && id in mapInfo && id != -1
      modifies this`mapInfo, vvNew
      ensures Contents() == Referenced(old(Contents()), (b, p), id)
    {
      hide TableOf;
      mapInfo := mapInfo[id := mapInfo[id].(refCount := mapInfo[id].refCount + 1)];
      SetSlot(vvNew, b, p, id);
    }

    /** The second half of `Add_`. */
    method List(id: int, source: NetAddr, now: int, ghost limbo: set<int>)
      requires Shaped() && Midway(h, Contents(), limbo, 0)
      requires id in mapInfo && id != -1 && !mapInfo[id].inTried && limbo <= {id}
      modifies this`mapInfo, this`mapAddr, this`vRandom, this`nNew, vvNew
      ensures Contents() == Listed(h, old(Contents()), id, source, now, limbo, 0)
    {
      hide IndexOk, NewTableOk, TriedTableOk, EntriesOk, CountsOk, Cleared, Deleted, TableOf, NewBucket, Position, IsTerrible;
      ghost var s := Contents();
      var uBucket := NewBucket(h, nKey, mapInfo[id].service, source);
      var uPos := Position(h, nKey, true, uBucket, mapInfo[id].service);
      TableAt(vvNew, uBucket, uPos);
      if vvNew[uBucket, uPos] != id {
        Occupant(h, s, (uBucket, uPos), limbo, 0);
        var insert := vvNew[uBucket, uPos] == -1;
        if !insert {
          var existing := mapInfo[vvNew[uBucket, uPos]];
          if IsTerrible(existing, now) || (existing.refCount > 1 && mapInfo[id].refCount == 0) {
            insert := true;
          }
        }
        if insert {
          ClearedMidway(h, s, (uBucket, uPos), limbo, 0);
          ClearNew(uBucket, uPos);
          Reference(uBucket, uPos, id);
        } else if mapInfo[id].refCount == 0 {
          Delete(id);
        }
      }
    }

    /** Hearing about an address that is known: it may gain a reference. */
    method AddKnown(id: int, a: Address, source: NetAddr, penalty: int, now: int, draw: nat)
      requires Valid() && id in mapInfo && id != -1
      modifies this`mapInfo, this`mapAddr, this`vRandom, this`nNew, vvNew
      ensures Contents() == Reheard(h, old(Contents()), id, a, source, penalty, now, draw)
    {
      hide Midway, TableOf, Listed, Odds, Refreshed;
      RefreshedSettled(h, Contents(), id, a, penalty, now);
      Refresh(id, a, penalty, now);
      var i := mapInfo[id];
      if a.time == 0 || (i.time != 0 && a.time <= i.time) {
        return;
      }
      if i.inTried {
        return;
      }
      if i.refCount == NEW_BUCKETS_PER_ADDRESS {
        return;
      }
      var nFactor := Factor(i.refCount);
      if nFactor > 1 && draw % nFactor != 0 {
        return;
      }
      List(id, source, now, {});
    }

    /** Hearing about an address that is not known: it is created, counted and listed if there is room. */
    method AddUnknown(a: Address, source: NetAddr, penalty: int, now: int)
      requires Valid() && a.service.ip !in mapAddr
      modifies this`nIdCount, this`mapInfo, this`mapAddr, this`vRandom, this`nNew, vvNew
      ensures Midway(h, Entered(old(Contents()), a, source, penalty), {old(nIdCount)}, 0)
      ensures Contents() == Listed(h, Entered(old(Contents()), a, source, penalty), old(nIdCount), source, now, {old(nIdCount)}, 0)
    {
      hide Midway, TableOf, Listed;
      ghost var s := Contents();
      EnteredMidway(h, s, a, source, penalty);
      var id := Create(a, source);
      mapInfo := mapInfo[id := mapInfo[id].(time := Max(0, mapInfo[id].time - penalty))];
      nNew := nNew + 1;
      assert Contents() == Entered(s, a, source, penalty) by {
        assert mapInfo == s.info[id := mapInfo[id]];
      }
      assert id != -1 by { Indexed(h, s, a.service.ip); }
      List(id, source, now, {id});
    }

    /** `Add_`. */
    method Add(a: Address, source: NetAddr, penalty: int, now: int, draw: nat) returns (fNew: bool)
      requires Valid()
      modifies this`nIdCount, this`mapInfo, this`mapAddr, this`vRandom, this`nNew, vvNew
      ensures Valid() && (Contents(), fNew) == Added(h, old(Contents()), a, source, penalty, now, draw)
    {
      hide Midway, TableOf, Listed, Reheard, Entered;
      ghost var s := Contents();
      AddedInv(h, s, a, source, penalty, now, draw);
      Indexed(h, s, a.service.ip);
      if !h.routable(a.service.ip) {
        return false;
      }
      var found := Find(a.service.ip);
      if found.Some? {
        IdsNonNegative(h, s, found.value);
        AddKnown(found.value, a, source, penalty, now, draw);
        fNew := false;
      } else {
        AddUnknown(a, source, penalty, now);
        fNew := true;
      }
    }

    /** Hearing about a known address again updates its time and services. */
    method Refresh(id: int, a: Address, penalty: int, now: int)
      requires id in mapInfo
      modifies this`mapInfo
      ensures mapInfo == old(mapInfo)[id := Refreshed(old(mapInfo)[id], a, penalty, now)]
    {
      hide Refreshed;
      var info := UpdateTime(mapInfo[id], a, penalty, now);
      mapInfo := mapInfo[id := info];
    }

    /** `GetAddr_`: shuffle from the front until enough addresses are collected. */
    method GetAddr(draws: nat -> nat, now: int) returns (vAddr: seq<Address>)
      requires Valid()
      modifies this`mapInfo, this`vRandom
      ensures Valid() && (Contents(), vAddr) == Given(old(Contents()), draws, now)
    {
      hide IndexOk, NewTableOk, TriedTableOk, EntriesOk, CountsOk, AddrOk, TimesOk, TableOf, Swapped, IsTerrible, Picked;
      ghost var s := Contents();
      GivenSteady(h, s, draws, now);
      var nNodes := GETADDR_MAX_PCT * |vRandom| / 100;
      if nNodes > GETADDR_MAX {
        nNodes := GETADDR_MAX;
      }
      vAddr := [];
      var n := 0;
      while n < |vRandom|
        invariant 0 <= n <= |vRandom| == |s.random|
        invariant IndexOk(Contents())
        invariant Picked(Contents(), n, draws, nNodes, now, vAddr) == Given(s, draws, now)
        decreases |s.random| - n
      {
        if |vAddr| >= nNodes {
          break;
        }
        var nRndPos := draws(n) % (|vRandom| - n) + n;
        SwappedKeeps(Contents(), n, nRndPos);
        PickedUnfold(Contents(), n, draws, nNodes, now, vAddr);
        SwapRandom(n, nRndPos);
        RandomIn(Contents(), n);
        var ai := mapInfo[vRandom[n]];
        if !IsTerrible(ai, now) {
          vAddr := vAddr + [AddressOf(ai)];
        }
        n := n + 1;
      }
      PickedEnd(Contents(), n, draws, nNodes, now, vAddr);
    }
  }

  lemma PickedUnfold(s: State, n: nat, draws: nat -> nat, nodes: int, now: int, acc: seq<Address>)
    requires IndexOk(s) && n < |s.random| && |acc| < nodes
    ensures var t := Swapped(s, n, draws(n) % (|s.random| - n) + n);
            && IndexOk(t) && |t.random| == |s.random| && t.random[n] in t.info
            && Picked(s, n, draws, nodes, now, acc)
            == Picked(t, n + 1, draws, nodes, now,
                      if IsTerrible(t.info[t.random[n]], now) then acc else acc + [AddressOf(t.info[t.random[n]])])
  {
    hide Swapped, IsTerrible;
    SwappedKeeps(s, n, draws(n) % (|s.random| - n) + n);
  }

  lemma PickedEnd(s: State, n: nat, draws: nat -> nat, nodes: int, now: int, acc: seq<Address>)
    requires IndexOk(s) && n <= |s.random| && (n == |s.random| || |acc| >= nodes)
    ensures Picked(s, n, draws, nodes, now, acc) == (s, acc)
  {
  }

  method UpdateTime(i: Info, a: Address, penalty: int, now: int) returns (r: Info)
    ensures r == Refreshed(i, a, penalty, now)
  {
    var fCurrentlyOnline := now - a.time < 24 * 60 * 60;
    var nUpdateInterval := if fCurrentlyOnline then 60 * 60 else 24 * 60 * 60;
    var time := i.time;
    if a.time != 0 && (time == 0 || time < a.time - nUpdateInterval - penalty) {
      time := Max(0, a.time - penalty);
    }
    r := i.(time := time, services := i.services + a.services);
  }

  /** The factor by which every reference an entry already has lowers its odds. */
  method Factor(n: int) returns (f: int)
    ensures f == Odds(n)
  {
    f := 1;
    var i := 0;
    while i < n
      invariant 0 <= i && (i <= n || i == 0) && f == Pow2(i)
    {
      f := f * 2;
      i := i + 1;
    }
  }

  lemma Indexed(h: Hashing, s: State, ip: NetAddr)
    requires Steady(h, s)
    ensures s.idCount >= 0 && (ip in s.addr ==> s.addr[ip] in s.info)
  {
  }

  lemma Around(bucket: int, nRnd: nat, stop: int)
    requires 0 <= bucket < NEW_BUCKET_COUNT && (stop + nRnd == bucket || stop + nRnd == bucket + NEW_BUCKET_COUNT)
    ensures (stop + nRnd) % NEW_BUCKET_COUNT == bucket
  {
  }

  lemma IdsNonNegative(h: Hashing, s: State, id: int)
    requires Settled(h, s) && id in s.info
    ensures id >= 0
  {
  }

  lemma SweepOneHas(h: Hashing, s: State, id: int, bucket: int)
    requires id in s.info
    ensures id in SweepOne(h, s, id, bucket).info
  {
  }

  lemma Occupant(h: Hashing, s: State, slot: Slot, limbo: set<int>, extra: int)
    requires Midway(h, s, limbo, extra)
    ensures slot in s.newTable ==>
      var id := s.newTable[slot]; id in s.info && s.info[id].refCount > 0 && !s.info[id].inTried
  {
    if slot in s.newTable {
      UnreferencedMidway(h, s, slot, limbo, extra);
    }
  }

  lemma InLimbo(h: Hashing, s: State, id: int, limbo: set<int>, extra: int)
    requires Midway(h, s, limbo, extra) && id in limbo
    ensures id in s.info && s.info[id].refCount == 0
  {
    assert EntryOk(h, s, id, true);
  }

  lemma UnlistedEntry(s: State, id: int)
    requires id in s.info
    ensures id in Unlisted(s, id).info && Unlisted(s, id).info[id].refCount == 0
    ensures Unlisted(s, id).key == s.key && Unlisted(s, id).info[id].service == s.info[id].service
  {
  }
}
