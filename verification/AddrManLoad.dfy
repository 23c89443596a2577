/** Which files load into a consistent address manager, exactly (`CAddrMan::Unserialize`, src/addrman.h). */
module AddrManLoad {
  import opened AddrMan
  import opened AddrManSteps
  import opened AddrManStore

  // ---------------------------------------------------------------- what to look for in a file

  function Count(f: File): nat {
    |f.entries| + |f.triedEntries|
  }

  /** The record in the `n`-th place of the file, new ones first. */
  function RecordAt(f: File, n: int): Record
    requires 0 <= n < Count(f)
  {
    if n < |f.entries| then f.entries[n] else f.triedEntries[n - |f.entries|]
  }

  function IpAt(f: File, n: int): NetAddr
    requires 0 <= n < Count(f)
  {
    RecordAt(f, n).service.ip
  }

  /** New entries always enter; a tried one does if no earlier tried entry has the same slot. */
  predicate Enters(h: Hashing, f: File, n: int)
    requires 0 <= n < Count(f)
  {
    n < |f.entries| ||
    forall j :: |f.entries| <= j < n ==> TriedSlot(h, f.key, RecordAt(f, j).service) != TriedSlot(h, f.key, RecordAt(f, n).service)
  }

  /** Among the first `n` records, no two that enter have the same address. */
  ghost predicate NoRepeats(h: Hashing, f: File, n: int)
    requires 0 <= n <= Count(f)
  {
    forall i, j :: 0 <= i < j < n && Enters(h, f, i) && Enters(h, f, j) ==> IpAt(f, i) != IpAt(f, j)
  }

  /** Among the first `n` records, those that enter have times that make sense. */
  ghost predicate SaneTimes(h: Hashing, f: File, n: int)
    requires 0 <= n <= Count(f)
  {
    forall i :: 0 <= i < n && Enters(h, f, i) ==>
      RecordAt(f, i).lastSuccess >= if i < |f.entries| then 0 else 1
  }

  /** One of the first `n` records that enter has this address. */
  ghost predicate Mentions(h: Hashing, f: File, n: int, ip: NetAddr)
    requires 0 <= n <= Count(f)
  {
    exists i :: 0 <= i < n && Enters(h, f, i) && IpAt(f, i) == ip
  }

  /** One of the first `n` records is a tried one with this slot. */
  ghost predicate Claims(h: Hashing, f: File, n: int, slot: Slot)
    requires 0 <= n <= Count(f)
  {
    exists j :: |f.entries| <= j < n && TriedSlot(h, f.key, RecordAt(f, j).service) == slot
  }

  lemma RepeatsStep(h: Hashing, f: File, n: int)
    requires 0 <= n < Count(f)
    ensures NoRepeats(h, f, n + 1) <==> NoRepeats(h, f, n) && (Enters(h, f, n) ==> !Mentions(h, f, n, IpAt(f, n)))
  {
    hide Enters, IpAt;
  }

  lemma TimesStep(h: Hashing, f: File, n: int)
    requires 0 <= n < Count(f)
    ensures SaneTimes(h, f, n + 1) <==>
      (SaneTimes(h, f, n) && (Enters(h, f, n) ==> RecordAt(f, n).lastSuccess >= if n < |f.entries| then 0 else 1))
  {
    hide Enters, RecordAt;
  }

  lemma MentionsStep(h: Hashing, f: File, n: int, ip: NetAddr)
    requires 0 <= n < Count(f)
    ensures Mentions(h, f, n + 1, ip) <==> Mentions(h, f, n, ip) || (Enters(h, f, n) && ip == IpAt(f, n))
  {
    hide Enters, IpAt;
    if Mentions(h, f, n, ip) {
      var i :| 0 <= i < n && Enters(h, f, i) && IpAt(f, i) == ip;
    }
  }

  lemma ClaimsStep(h: Hashing, f: File, n: int, slot: Slot)
    requires 0 <= n < Count(f)
    ensures Claims(h, f, n + 1, slot) <==>
      Claims(h, f, n, slot) || (n >= |f.entries| && slot == TriedSlot(h, f.key, RecordAt(f, n).service))
  {
    hide RecordAt, TriedSlot;
    if Claims(h, f, n, slot) {
      var j :| |f.entries| <= j < n && TriedSlot(h, f.key, RecordAt(f, j).service) == slot;
    }
  }

  // ---------------------------------------------------------------- entering one record

  /** Every entry's address is in the index, and leads to an entry with that address, if not to the same one. */
  ghost predicate AddrCovers(s: State) {
    && (forall id :: id in s.info ==> s.info[id].service.ip in s.addr)
    && (forall ip :: ip in s.addr ==> s.addr[ip] in s.info && s.info[s.addr[ip]].service.ip == ip)
  }

  /** `t` is `s` with one more entry. */
  ghost predicate OneMore(s: State, t: State, id: int) {
    && id !in s.info && (forall x :: x in t.info <==> x in s.info || x == id)
    && (forall x :: x in s.info ==> t.info[x] == s.info[x])
    && t.addr == s.addr[t.info[id].service.ip := id]
  }

  lemma OneMoreCovers(s: State, t: State, id: int)
    requires AddrCovers(s) && OneMore(s, t, id)
    ensures AddrCovers(t)
  {
    var ip := t.info[id].service.ip;
    forall x | x in t.info ensures t.info[x].service.ip in t.addr {
      if x in s.info {
        assert t.info[x] == s.info[x];
      }
    }
    forall a | a in t.addr ensures t.addr[a] in t.info && t.info[t.addr[a]].service.ip == a {
      if a != ip {
        var x := s.addr[a];
        assert x in s.info && t.info[x] == s.info[x];
      }
    }
  }

  lemma OneMoreAddr(s: State, t: State, id: int)
    requires AddrCovers(s) && OneMore(s, t, id)
    ensures AddrOk(t) <==> AddrOk(s) && t.info[id].service.ip !in s.addr
  {
    var ip := t.info[id].service.ip;
    if ip in s.addr {
      var x := s.addr[ip];
      assert x in s.info && t.info[x] == s.info[x];
      assert t.addr[t.info[x].service.ip] == id;
    } else if AddrOk(s) {
      OneMoreCovers(s, t, id);
      forall x | x in t.info ensures t.addr[t.info[x].service.ip] == x {
        if x in s.info {
          assert t.info[x] == s.info[x] && s.info[x].service.ip in s.addr;
        }
      }
    } else {
      var x :| x in s.info && s.addr[s.info[x].service.ip] != x;
      assert t.info[x] == s.info[x] && s.info[x].service.ip in s.addr;
      assert t.addr[t.info[x].service.ip] != x;
    }
  }

  lemma OneMoreTimes(s: State, t: State, id: int)
    requires OneMore(s, t, id)
    ensures TimesOk(t) <==> TimesOk(s) && TimeOk(t.info[id])
  {
    if TimesOk(t) {
      forall x | x in s.info ensures TimeOk(s.info[x]) {
        assert TimeOk(t.info[x]);
      }
    }
  }

  /** What a state says about the first `n` records of the file it is read from. */
  ghost predicate Tells(h: Hashing, f: File, n: int, s: State)
    requires 0 <= n <= Count(f)
  {
    && AddrCovers(s)
    && (forall ip :: ip in s.addr <==> Mentions(h, f, n, ip))
    && (forall slot :: slot in s.triedTable <==> Claims(h, f, n, slot))
    && (AddrOk(s) <==> NoRepeats(h, f, n))
    && (TimesOk(s) <==> SaneTimes(h, f, n))
  }

  /** A record that enters is told of by the entry made of it. */
  lemma TellsMore(h: Hashing, f: File, n: int, s: State, t: State, id: int)
    requires 0 <= n < Count(f) && Tells(h, f, n, s) && Enters(h, f, n) && OneMore(s, t, id)
    requires t.info[id].service == RecordAt(f, n).service
    requires TimeOk(t.info[id]) <==> RecordAt(f, n).lastSuccess >= if n < |f.entries| then 0 else 1
    requires forall slot :: slot in t.triedTable <==>
      slot in s.triedTable || (n >= |f.entries| && slot == TriedSlot(h, f.key, RecordAt(f, n).service))
    ensures Tells(h, f, n + 1, t)
  {
    hide Enters, AddrOk, TimesOk, TimeOk, NoRepeats, SaneTimes, Mentions, Claims, AddrCovers, TriedSlot, RecordAt;
    OneMoreCovers(s, t, id);
    OneMoreAddr(s, t, id);
    OneMoreTimes(s, t, id);
    RepeatsStep(h, f, n);
    TimesStep(h, f, n);
    forall ip ensures ip in t.addr <==> Mentions(h, f, n + 1, ip) {
      MentionsStep(h, f, n, ip);
    }
    forall slot ensures slot in t.triedTable <==> Claims(h, f, n + 1, slot) {
      ClaimsStep(h, f, n, slot);
    }
  }

  /** A record that does not enter changes nothing. */
  lemma TellsSame(h: Hashing, f: File, n: int, s: State)
    requires 0 <= n < Count(f) && Tells(h, f, n, s) && !Enters(h, f, n)
    requires TriedSlot(h, f.key, RecordAt(f, n).service) in s.triedTable
    ensures Tells(h, f, n + 1, s)
  {
    hide Enters, AddrOk, TimesOk, NoRepeats, SaneTimes, Mentions, Claims, AddrCovers, TriedSlot, RecordAt;
    RepeatsStep(h, f, n);
    TimesStep(h, f, n);
    forall ip ensures ip in s.addr <==> Mentions(h, f, n + 1, ip) {
      MentionsStep(h, f, n, ip);
    }
    forall slot ensures slot in s.triedTable <==> Claims(h, f, n + 1, slot) {
      ClaimsStep(h, f, n, slot);
    }
  }

  lemma EntersIsUnclaimed(h: Hashing, f: File, n: int)
    requires |f.entries| <= n < Count(f)
    ensures Enters(h, f, n) <==> !Claims(h, f, n, TriedSlot(h, f.key, RecordAt(f, n).service))
  {
    hide TriedSlot, RecordAt;
  }

  lemma LoadNewOneMore(h: Hashing, s: State, r: Record, usable: bool)
    requires s.idCount !in s.info
    ensures var t := LoadNewOne(h, s, r, usable);
            && OneMore(s, t, s.idCount) && t.triedTable == s.triedTable
            && t.info[s.idCount].service == r.service
            && (TimeOk(t.info[s.idCount]) <==> r.lastSuccess >= 0)
  {
    hide NewSlot;
  }

  lemma LoadTriedOneMore(h: Hashing, s: State, r: Record)
    requires s.idCount !in s.info
    ensures var t, slot := LoadTriedOne(h, s, r), TriedSlot(h, s.key, r.service);
            if slot in s.triedTable then t == s
            else
              && OneMore(s, t, s.idCount) && t.triedTable == s.triedTable[slot := s.idCount]
              && t.info[s.idCount].service == r.service
              && (TimeOk(t.info[s.idCount]) <==> r.lastSuccess >= 1)
  {
    hide TriedSlot;
  }

  lemma NextIdFree(h: Hashing, s: State)
    requires Loading(h, s)
    ensures s.idCount !in s.info
  {
  }

  lemma LoadNewOneTells(h: Hashing, f: File, n: int, s: State)
    requires 0 <= n < |f.entries| && Tells(h, f, n, s) && s.idCount !in s.info
    ensures Tells(h, f, n + 1, LoadNewOne(h, s, f.entries[n], f.Usable()))
  {
    hide LoadNewOne, OneMore, Tells, TimeOk, TriedSlot;
    LoadNewOneMore(h, s, f.entries[n], f.Usable());
    TellsMore(h, f, n, s, LoadNewOne(h, s, f.entries[n], f.Usable()), s.idCount);
  }

  lemma LoadTriedOneTells(h: Hashing, f: File, n: int, s: State)
    requires |f.entries| <= n < Count(f) && Tells(h, f, n, s) && s.idCount !in s.info && s.key == f.key
    ensures Tells(h, f, n + 1, LoadTriedOne(h, s, RecordAt(f, n)))
  {
    hide LoadTriedOne, OneMore, Tells, TimeOk, TriedSlot, Enters, Claims, RecordAt;
    LoadTriedOneMore(h, s, RecordAt(f, n));
    EntersIsUnclaimed(h, f, n);
    TellsClaims(h, f, n, s, TriedSlot(h, f.key, RecordAt(f, n).service));
    if Enters(h, f, n) {
      TellsMore(h, f, n, s, LoadTriedOne(h, s, RecordAt(f, n)), s.idCount);
    } else {
      TellsSame(h, f, n, s);
    }
  }

  lemma EmptyTells(h: Hashing, f: File)
    ensures Tells(h, f, 0, Empty(f.key))
  {
    assert AddrOk(Empty(f.key)) && TimesOk(Empty(f.key));
  }

  lemma {:induction false} LoadNewTells(h: Hashing, f: File, k: nat)
    requires k <= |f.entries|
    ensures Tells(h, f, k, LoadNew(h, f, k))
  {
    hide Loading, LoadNewOne, Tells;
    if k == 0 {
      EmptyTells(h, f);
    } else {
      LoadNewTells(h, f, k - 1);
      LoadNewKeeps(h, f, k - 1);
      NextIdFree(h, LoadNew(h, f, k - 1));
      LoadNewOneTells(h, f, k - 1, LoadNew(h, f, k - 1));
    }
  }

  lemma {:induction false} LoadTriedTells(h: Hashing, f: File, k: nat)
    requires k <= |f.triedEntries|
    ensures Tells(h, f, |f.entries| + k, LoadTried(h, f, k))
  {
    hide Loading, LoadTriedOne, LoadNew, Tells;
    if k == 0 {
      LoadNewTells(h, f, |f.entries|);
    } else {
      LoadTriedTells(h, f, k - 1);
      LoadTriedKeeps(h, f, k - 1);
      NextIdFree(h, LoadTried(h, f, k - 1));
      LoadTriedOneTells(h, f, |f.entries| + k - 1, LoadTried(h, f, k - 1));
    }
  }

  lemma TellsClaims(h: Hashing, f: File, n: int, s: State, slot: Slot)
    requires 0 <= n <= Count(f) && Tells(h, f, n, s)
    ensures slot in s.triedTable <==> Claims(h, f, n, slot)
  {
  }

  // ---------------------------------------------------------------- before anything is pruned

  lemma ReferencesKeep(s: State, r: State)
    requires OnlyReferences(s, r)
    ensures AddrOk(s) ==> AddrOk(r)
    ensures AddrCovers(s) ==> AddrCovers(r)
    ensures TimesOk(s) ==> TimesOk(r)
  {
    forall id | id in r.info
      ensures id in s.info && r.info[id].service == s.info[id].service && (TimeOk(r.info[id]) <==> TimeOk(s.info[id]))
    {
      assert r.info[id] == s.info[id].(refCount := r.info[id].refCount);
    }
    forall ip | ip in r.addr && r.addr[ip] in s.info
      ensures ip in s.addr && r.addr[ip] in r.info && r.info[r.addr[ip]].service == s.info[s.addr[ip]].service
    {
      var x := r.addr[ip];
      assert x in r.info && r.info[x].service == s.info[x].service;
    }
  }

  lemma ReferencesBack(s: State, r: State)
    requires OnlyReferences(s, r)
    ensures OnlyReferences(r, s)
  {
    forall id | id in r.info ensures s.info[id] == r.info[id].(refCount := s.info[id].refCount) {
      assert r.info[id] == s.info[id].(refCount := r.info[id].refCount);
    }
  }

  /** With all references read, the invariant holds exactly when no address entered twice and the times make sense. */
  lemma UnprunedExactly(h: Hashing, f: File)
    ensures var s := Unpruned(h, f);
            && Loading(h, s) && AddrCovers(s)
            && (AddrOk(s) <==> NoRepeats(h, f, Count(f)))
            && (TimesOk(s) <==> SaneTimes(h, f, Count(f)))
  {
    hide LoadBuckets, LoadTried, Loading, OnlyReferences, AddrOk, TimesOk, NoRepeats, SaneTimes, AddrCovers;
    LoadBucketsKeeps(h, f, |f.buckets|);
    LoadTriedTells(h, f, |f.triedEntries|);
    var t := LoadTried(h, f, |f.triedEntries|);
    ReferencesKeep(t, Unpruned(h, f));
    ReferencesBack(t, Unpruned(h, f));
    ReferencesKeep(Unpruned(h, f), t);
  }

  // ---------------------------------------------------------------- after pruning

  /** The entries below `k` that are dropped. */
  function Dropped(s: State, k: int): set<int> {
    set id | id in Idle(s) && id < k
  }

  /** `r` is `s` without some entries and their addresses. */
  ghost predicate Without(s: State, r: State, lost: set<int>) {
    && (forall x :: x in r.info <==> x in s.info && x !in lost) && r.addr == s.addr - Ips(s, lost)
    && forall x :: x in r.info ==> SameEntry(r.info[x], s.info[x])
  }

  lemma WithoutOne(s: State, q: State, r: State, lost: set<int>, id: int)
    requires Without(s, q, lost) && id in q.info
    requires Without(q, r, {id})
    ensures Without(s, r, lost + {id})
  {
    assert Ips(s, lost + {id}) == Ips(s, lost) + Ips(q, {id});
  }

  lemma {:induction false} PrunedWithout(h: Hashing, s: State, k: nat)
    requires Loading(h, s)
    ensures Without(s, Pruned(h, s, k), Dropped(s, k))
  {
    hide Loading, Without, PruneOne, Dropped, Idle, From;
    if k == 0 {
      WithoutNone(h, s);
    } else {
      PrunedWithout(h, s, k - 1);
      PrunedStep(h, s, Pruned(h, s, k - 1), k - 1);
    }
  }

  lemma WithoutNone(h: Hashing, s: State)
    requires Loading(h, s)
    ensures Without(s, s, Dropped(s, 0))
  {
    LimboIsIdle(h, s, Idle(s), 0);
    hide Loading;
    assert Dropped(s, 0) == {};
  }

  lemma PrunedStep(h: Hashing, s: State, q: State, id: int)
    requires Loading(h, q) && Idle(q) == From(Idle(s), id) && Without(s, q, Dropped(s, id))
    ensures Without(s, PruneOne(h, q, id), Dropped(s, id + 1))
  {
    hide Loading, Without, PruneOne, Deleted, Idle;
    assert id in Idle(q) <==> id in Idle(s);
    if id in Idle(q) {
      PrunedInfo(h, q, id);
      WithoutOne(s, q, Deleted(q, id), Dropped(s, id), id);
      assert Dropped(s, id + 1) == Dropped(s, id) + {id};
    } else {
      assert Dropped(s, id + 1) == Dropped(s, id);
      PrunedNone(h, q, id);
    }
  }

  lemma PrunedNone(h: Hashing, q: State, id: int)
    requires Loading(h, q) && id !in Idle(q)
    ensures PruneOne(h, q, id) == q
  {
    hide Midway;
  }

  lemma PrunedInfo(h: Hashing, q: State, id: int)
    requires Loading(h, q) && id in Idle(q)
    ensures IndexOk(q) && id in q.info && PruneOne(h, q, id) == Deleted(q, id) && Without(q, Deleted(q, id), {id})
  {
    hide NewTableOk, TriedTableOk, EntriesOk, CountsOk, Deleted, SameEntry, IndexOk;
    DeletedMidway(h, q, id, Idle(q), 0);
    var r := Deleted(q, id);
    assert forall x :: x in r.info.Keys <==> x in q.info.Keys - {id};
    assert Ips(q, {id}) == {q.info[id].service.ip};
  }

  /** No entry that stays shares its address with another one, staying or not. */
  ghost predicate Unshared(s: State) {
    forall x, y :: x in s.info && y in s.info && x !in Idle(s) && x != y ==> s.info[x].service.ip != s.info[y].service.ip
  }

  /** No entry that stays has a time that makes no sense. */
  ghost predicate StayingTimes(s: State) {
    forall x :: x in s.info && x !in Idle(s) ==> TimeOk(s.info[x])
  }

  lemma WithoutTimes(s: State, r: State)
    requires Without(s, r, Idle(s))
    ensures TimesOk(r) <==> StayingTimes(s)
  {
    hide Idle;
    forall x | x in r.info ensures TimeOk(r.info[x]) <==> TimeOk(s.info[x]) {
    }
    if TimesOk(r) {
      forall x | x in s.info && x !in Idle(s) ensures TimeOk(s.info[x]) {
        assert x in r.info;
      }
    }
  }

  lemma WithoutAddr(s: State, r: State)
    requires AddrCovers(s) && Without(s, r, Idle(s))
    ensures AddrOk(r) <==> Unshared(s)
  {
    hide Idle;
    if Unshared(s) {
      UnsharedAddr(s, r);
    }
    if AddrOk(r) {
      forall x, y | x in s.info && y in s.info && x !in Idle(s) && x != y ensures s.info[x].service.ip != s.info[y].service.ip {
        assert x in r.info && r.addr[s.info[x].service.ip] == x;
        if y in Idle(s) {
          assert s.info[y].service.ip in Ips(s, Idle(s));
        } else {
          assert y in r.info;
        }
      }
    }
  }

  lemma UnsharedAddr(s: State, r: State)
    requires AddrCovers(s) && Without(s, r, Idle(s)) && Unshared(s)
    ensures AddrOk(r)
  {
    hide Idle;
    forall x | x in r.info ensures r.info[x].service.ip in r.addr && r.addr[r.info[x].service.ip] == x {
      var ip := s.info[x].service.ip;
      assert s.addr[ip] == x;
      assert ip !in Ips(s, Idle(s));
    }
    forall ip | ip in r.addr ensures r.addr[ip] in r.info && r.info[r.addr[ip]].service.ip == ip {
      var x := s.addr[ip];
      assert x in Idle(s) ==> ip in Ips(s, Idle(s));
    }
  }

  lemma AddrOkUnshared(s: State)
    requires AddrOk(s)
    ensures Unshared(s)
  {
  }

  /**
   * Whatever the file says, all but the address index and the times is consistent. The index is, exactly when no entry
   * that stays shares its address; a file without repeated addresses and with sane times gives the whole invariant.
   */
  lemma LoadedExactly(h: Hashing, f: File)
    ensures var s, r := Unpruned(h, f), Loaded(h, f);
            && Settled(h, r)
            && (AddrOk(r) <==> Unshared(s))
            && (TimesOk(r) <==> StayingTimes(s))
    ensures NoRepeats(h, f, Count(f)) ==> Steady(h, Loaded(h, f))
    ensures NoRepeats(h, f, Count(f)) && SaneTimes(h, f, Count(f)) ==> Inv(h, Loaded(h, f))
  {
    hide Loading, Midway, LoadBuckets, Pruned, AddrOk, TimesOk, Unshared, StayingTimes, AddrCovers, Without, NoRepeats, SaneTimes;
    LoadedSettled(h, f);
    UnprunedExactly(h, f);
    var s := Unpruned(h, f);
    LoadBucketsKeeps(h, f, |f.buckets|);
    PrunedWithout(h, s, s.idCount);
    AllDropped(h, s);
    WithoutTimes(s, Loaded(h, f));
    WithoutAddr(s, Loaded(h, f));
    if NoRepeats(h, f, Count(f)) {
      AddrOkUnshared(s);
      if SaneTimes(h, f, Count(f)) {
        TimesStay(s);
      }
    }
  }

  lemma TimesStay(s: State)
    requires TimesOk(s)
    ensures StayingTimes(s)
  {
  }

  lemma AllDropped(h: Hashing, s: State)
    requires Loading(h, s)
    ensures Dropped(s, s.idCount) == Idle(s)
  {
    LimboIsIdle(h, s, Idle(s), 0);
  }

  // ---------------------------------------------------------------- a file that does break the index

  /** An old file with one address twice, under two ports. */
  function TwoPorts(key: Key, ip: NetAddr, p: int, q: int, source: NetAddr): File {
    File(0, key, [Record(Service(ip, p), {}, 0, source, 0, 0), Record(Service(ip, q), {}, 0, source, 0, 0)], [], [])
  }

  /** Whatever the hash functions do, the first entry stays and cannot be found: the index leads to the second or nowhere. */
  lemma TwoPortsBreakIndex(h: Hashing, key: Key, ip: NetAddr, p: int, q: int, source: NetAddr)
    ensures var f := TwoPorts(key, ip, p, q, source); var r := Loaded(h, f);
            && !NoRepeats(h, f, Count(f)) && SaneTimes(h, f, Count(f))
            && 0 in r.info && r.info[0].service.ip == ip
            && (ip in r.addr ==> r.addr[ip] != 0) && !AddrOk(r)
  {
    hide NewSlot, LoadNewOne, LoadNew, Loading, Midway, Pruned, Idle;
    var f := TwoPorts(key, ip, p, q, source);
    assert Enters(h, f, 0) && Enters(h, f, 1) && IpAt(f, 0) == IpAt(f, 1);
    FirstStays(h, f);
    LoadedSettled(h, f);
    LoadBucketsKeeps(h, f, 0);
    StaysLost(h, Unpruned(h, f), ip);
    assert !AddrOk(Loaded(h, f));
  }

  /** An entry that stays but is not the one its address leads to cannot be found afterwards. */
  lemma StaysLost(h: Hashing, s: State, ip: NetAddr)
    requires Loading(h, s) && 0 in s.info && 0 !in Idle(s) && s.info[0].service.ip == ip && ip in s.addr && s.addr[ip] != 0
    requires s.idCount >= 0
    ensures var r := Pruned(h, s, s.idCount); 0 in r.info && r.info[0].service.ip == ip && (ip in r.addr ==> r.addr[ip] != 0)
  {
    hide Loading, Pruned, Idle;
    PrunedWithout(h, s, s.idCount);
    AllDropped(h, s);
  }

  /** The first entry of an old file finds its slot free. */
  lemma FirstStays(h: Hashing, f: File)
    requires !f.Usable() && |f.entries| == 2 && f.triedEntries == [] && f.buckets == []
    ensures var s := Unpruned(h, f);
            && 0 in s.info && 1 in s.info && 0 !in Idle(s) && s.addr[f.entries[1].service.ip] == 1
            && s.info[0].service == f.entries[0].service && s.info[1].service == f.entries[1].service
            && f.entries[1].service.ip in s.addr
  {
    hide NewSlot;
    var one := LoadNew(h, f, 1);
    assert LoadNew(h, f, 0) == Empty(f.key);
    assert one == LoadNewOne(h, Empty(f.key), f.entries[0], false);
    assert one.idCount == 1 && 0 in one.info && one.info[0].refCount == 1;
    var two := LoadNewOne(h, one, f.entries[1], false);
    assert Unpruned(h, f) == two;
  }
}
