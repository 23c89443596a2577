/**
 * The stack of write-back coin caches (`CCoinsViewCache` over `CCoinsViewDB`, src/coins.cpp).
 * `caches[0]` sits on the database and every other cache on the one before it, so
 * the `base` pointer of `caches[k]` is `caches[k - 1]`.
 */
module CoinsCache {
  import opened Common
  import opened Coins

  /** `CCoinsCacheEntry`: a cached coin with its two flag bits. */
  datatype Entry = Entry(coins: Coins, isDirty: bool, isFresh: bool)

  type Cache = map<Hash, Entry>
  type Database = map<Hash, Coins>

  // ---------------------------------------------------------------- reference semantics

  /** What a reader of the topmost cache is told about `txid`. */
  ghost function View(db: Database, caches: seq<Cache>, txid: Hash): Option<Coins>
    decreases |caches|
  {
    if caches == [] then
      if txid in db then Abs(db[txid]) else None
    else
      var top := caches[|caches| - 1];
      if txid in top then Abs(top[txid].coins) else View(db, caches[..|caches| - 1], txid)
  }

  /** The flag discipline of one entry, relative to the view of its base. */
  ghost predicate EntryOk(e: Entry, base: Option<Coins>, baseHoldsKey: bool) {
    && e.coins.Cleaned()
    && (e.isFresh ==> base.None?)
    && (!e.isDirty ==> Abs(e.coins) == base)
    && (!e.isFresh ==> baseHoldsKey)
  }

  /** Whether the cache just below holds an entry for `txid`; the database makes no such promise. */
  ghost predicate HoldsKey(below: seq<Cache>, txid: Hash) {
    below == [] || txid in below[|below| - 1]
  }

  ghost predicate LayerOk(db: Database, below: seq<Cache>, top: Cache) {
    forall t :: t in top ==> EntryOk(top[t], View(db, below, t), HoldsKey(below, t))
  }

  ghost predicate StackOk(db: Database, caches: seq<Cache>)
    decreases |caches|
  {
    if caches == [] then
      forall t :: t in db ==> db[t].Cleaned()
    else
      var below := caches[..|caches| - 1];
      StackOk(db, below) && LayerOk(db, below, caches[|caches| - 1])
  }

  ghost predicate SameView(db: Database, a: seq<Cache>, db': Database, b: seq<Cache>) {
    forall t :: View(db, a, t) == View(db', b, t)
  }

  /** The two stacks show the same at each of the lowest `n` levels and at the database. */
  ghost predicate SameViews(db: Database, a: seq<Cache>, b: seq<Cache>, n: nat)
    requires n <= |a| && n <= |b|
  {
    forall k :: 0 <= k <= n ==> SameView(db, a[..k], db, b[..k])
  }

  lemma ViewOfPush(db: Database, below: seq<Cache>, top: Cache)
    ensures forall t :: View(db, below + [top], t) == if t in top then Abs(top[t].coins) else View(db, below, t)
    ensures StackOk(db, below + [top]) <==> StackOk(db, below) && LayerOk(db, below, top)
  {
    assert (below + [top])[..|below|] == below;
  }

  /** Pulling in a coin that the base shows keeps the layer and what it shows. */
  lemma PulledIn(db: Database, below: seq<Cache>, top: Cache, txid: Hash, c: Coins)
    requires LayerOk(db, below, top) && txid !in top && c.Cleaned()
    requires View(db, below, txid) == Abs(c) && HoldsKey(below, txid)
    ensures LayerOk(db, below, top[txid := Entry(c, false, c.IsPruned())])
    ensures SameView(db, below + [top], db, below + [top[txid := Entry(c, false, c.IsPruned())]])
  {
    ViewOfPush(db, below, top);
    ViewOfPush(db, below, top[txid := Entry(c, false, c.IsPruned())]);
  }

  /** A layer survives when its base keeps its view and loses no key. */
  lemma LayerOkMono(db: Database, below: seq<Cache>, db': Database, below': seq<Cache>, top: Cache)
    requires LayerOk(db, below, top)
    requires SameView(db, below, db', below')
    requires forall t :: HoldsKey(below, t) ==> HoldsKey(below', t)
    ensures LayerOk(db', below', top)
  {
    forall t | t in top ensures EntryOk(top[t], View(db', below', t), HoldsKey(below', t)) {
      assert View(db, below, t) == View(db', below', t);
      assert EntryOk(top[t], View(db, below, t), HoldsKey(below, t));
    }
  }

  /** Setting the dirty flag changes neither what a layer shows nor its consistency. */
  lemma MarkDirtyLemma(db: Database, below: seq<Cache>, top: Cache, txid: Hash)
    requires LayerOk(db, below, top) && txid in top
    ensures var top' := top[txid := top[txid].(isDirty := true)];
            LayerOk(db, below, top') && SameView(db, below + [top], db, below + [top'])
  {
    var top' := top[txid := top[txid].(isDirty := true)];
    ViewOfPush(db, below, top);
    ViewOfPush(db, below, top');
    forall t | t in top' ensures EntryOk(top'[t], View(db, below, t), HoldsKey(below, t)) {
      assert EntryOk(top[t], View(db, below, t), HoldsKey(below, t));
    }
  }

  /** Pulling a missing key in from the base changes nothing that is shown. */
  lemma PullInLemma(db: Database, below: seq<Cache>, top: Cache, txid: Hash, e: Entry)
    requires LayerOk(db, below, top) && txid !in top
    requires EntryOk(e, View(db, below, txid), HoldsKey(below, txid)) && !e.isDirty
    ensures LayerOk(db, below, top[txid := e])
    ensures SameView(db, below + [top], db, below + [top[txid := e]])
  {
    ViewOfPush(db, below, top);
    ViewOfPush(db, below, top[txid := e]);
    forall t | t in top[txid := e]
      ensures EntryOk(top[txid := e][t], View(db, below, t), HoldsKey(below, t))
    {
      if t != txid {
        assert EntryOk(top[t], View(db, below, t), HoldsKey(below, t));
      }
    }
  }

  /** Agreement below the top and at the top is agreement everywhere. */
  lemma SameViewsUpTo(db: Database, a: seq<Cache>, mid: seq<Cache>, b: seq<Cache>, n: nat)
    requires |a| == |mid| == |b| == n + 1
    requires SameViews(db, a, mid, n) && mid[..n] == b[..n]
    requires SameView(db, a, db, b)
    ensures SameViews(db, a, b, n + 1)
  {
    forall k | 0 <= k <= n + 1 ensures SameView(db, a[..k], db, b[..k]) {
      if k <= n {
        assert b[..k] == b[..n][..k] == mid[..k];
      } else {
        assert a[..k] == a && b[..k] == b;
      }
    }
  }

  lemma SameViewTrans(db: Database, a: seq<Cache>, b: seq<Cache>, c: seq<Cache>)
    requires SameView(db, a, db, b) && SameView(db, b, db, c)
    ensures SameView(db, a, db, c)
  {
    forall t ensures View(db, a, t) == View(db, c, t) {
      assert View(db, a, t) == View(db, b, t) && View(db, b, t) == View(db, c, t);
    }
  }

  /** The effect of `CCoinsViewCache::BatchWrite` on the receiving cache for one child entry. */
  function WriteEntry(ours: Cache, txid: Hash, e: Entry): Cache {
    if !e.isDirty then ours
    else if txid !in ours then
      if e.coins.IsPruned() then ours else ours[txid := Entry(e.coins, true, true)]
    else if ours[txid].isFresh && e.coins.IsPruned() then ours - {txid}
    else ours[txid := Entry(e.coins, true, ours[txid].isFresh)]
  }

  /**
   * Writing one entry loses nothing: the receiver afterwards shows the child's coin for
   * that key and what it showed before for every other key, and stays consistent.
   * The first conclusion is the assertion inside `BatchWrite`.
   */
  lemma WriteEntryLemma(db: Database, below: seq<Cache>, ours: Cache, txid: Hash, e: Entry)
    requires LayerOk(db, below, ours)
    requires var us := below + [ours]; EntryOk(e, View(db, us, txid), HoldsKey(us, txid))
    ensures e.isDirty && txid !in ours && !e.coins.IsPruned() ==> e.isFresh
    ensures var us' := below + [WriteEntry(ours, txid, e)];
            && LayerOk(db, below, WriteEntry(ours, txid, e))
            && View(db, us', txid) == Abs(e.coins)
            && forall t :: t != txid ==> View(db, us', t) == View(db, below + [ours], t)
                                         && (HoldsKey(us', t) <==> HoldsKey(below + [ours], t))
  {
    ViewOfPush(db, below, ours);
    var ours' := WriteEntry(ours, txid, e);
    ViewOfPush(db, below, ours');
    assert HoldsKey(below + [ours], txid) <==> txid in ours;
    forall t | t in ours'
      ensures EntryOk(ours'[t], View(db, below, t), HoldsKey(below, t))
    {
      if t in ours {
        assert EntryOk(ours[t], View(db, below, t), HoldsKey(below, t));
      }
    }
  }

  /** After one key has been written, the entries still to be written fit the receiver as before. */
  lemma StepKeepsRest(db: Database, us: seq<Cache>, db': Database, us': seq<Cache>, pending: Cache, txid: Hash)
    requires LayerOk(db, us, pending)
    requires forall t :: t != txid ==> View(db', us', t) == View(db, us, t)
    requires forall t :: t != txid ==> (HoldsKey(us', t) <==> HoldsKey(us, t))
    ensures LayerOk(db', us', pending - {txid})
  {
    forall t | t in pending - {txid}
      ensures EntryOk((pending - {txid})[t], View(db', us', t), HoldsKey(us', t))
    {
      assert EntryOk(pending[t], View(db, us, t), HoldsKey(us, t));
    }
  }

  /** Reference model: one complete snapshot per level, the database first. */
  type Snapshot = map<Hash, Coins>

  function Lookup(s: Snapshot, txid: Hash): Option<Coins> {
    if txid in s then Some(s[txid]) else None
  }

  ghost predicate Shows(db: Database, caches: seq<Cache>, s: Snapshot) {
    forall t :: View(db, caches, t) == Lookup(s, t)
  }

  /** Every level of the cache stack shows exactly the snapshot of that level. */
  ghost predicate Refines(db: Database, caches: seq<Cache>, snaps: seq<Snapshot>) {
    && |snaps| == |caches| + 1
    && forall k :: 0 <= k <= |caches| ==> Shows(db, caches[..k], snaps[k])
  }

  /** Only the top level shows something else. */
  lemma RefinesTop(db: Database, a: seq<Cache>, b: seq<Cache>, snaps: seq<Snapshot>, s: Snapshot)
    requires Refines(db, a, snaps) && |a| == |b| > 0
    requires SameViews(db, a, b, |a| - 1) && Shows(db, b, s)
    ensures Refines(db, b, snaps[|a| := s])
  {
    forall k | 0 <= k <= |b| ensures Shows(db, b[..k], snaps[|a| := s][k]) {
      if k < |b| {
        assert SameView(db, a[..k], db, b[..k]);
        assert forall t :: View(db, a[..k], t) == View(db, b[..k], t);
      } else {
        assert b[..k] == b;
      }
    }
  }

  lemma RefinesOfSameViews(db: Database, a: seq<Cache>, b: seq<Cache>, snaps: seq<Snapshot>)
    requires Refines(db, a, snaps) && |a| == |b| && SameViews(db, a, b, |a|)
    ensures Refines(db, b, snaps)
  {
    forall k | 0 <= k <= |b| ensures Shows(db, b[..k], snaps[k]) {
      assert SameView(db, a[..k], db, b[..k]);
      forall t ensures View(db, b[..k], t) == Lookup(snaps[k], t) {
        assert View(db, a[..k], t) == View(db, b[..k], t);
      }
    }
  }

  lemma RefinesPush(db: Database, a: seq<Cache>, snaps: seq<Snapshot>)
    requires Refines(db, a, snaps)
    ensures Refines(db, a + [map[]], snaps + [snaps[|a|]])
  {
    ViewOfPush(db, a, map[]);
    forall k | 0 <= k <= |a| + 1 ensures Shows(db, (a + [map[]])[..k], (snaps + [snaps[|a|]])[k]) {
      if k <= |a| {
        assert (a + [map[]])[..k] == a[..k];
      } else {
        assert (a + [map[]])[..k] == a + [map[]] && a[..|a|] == a;
      }
    }
  }

  lemma RefinesFlush(db: Database, db': Database, a: seq<Cache>, b: seq<Cache>, snaps: seq<Snapshot>)
    requires Refines(db, a, snaps) && |a| == |b| > 0
    requires |a| == 1 || db' == db
    requires |a| > 1 ==> b[..|a| - 2] == a[..|a| - 2]
    requires forall t :: View(db', b[..|a| - 1], t) == View(db, a, t)
    requires forall t :: View(db', b, t) == View(db, a, t)
    ensures Refines(db', b, snaps[|a| - 1 := snaps[|a|]])
  {
    var n := |a|;
    assert a[..n] == a;
    forall k | 0 <= k <= n ensures Shows(db', b[..k], snaps[n - 1 := snaps[n]][k]) {
      if k < n - 1 {
        assert b[..k] == b[..n - 2][..k] == a[..k];
      } else if k == n {
        assert b[..k] == b;
      }
    }
  }

  /** Whether an output is unspent according to the topmost view. */
  ghost predicate Unspent(db: Database, caches: seq<Cache>, out: OutPoint) {
    var c := View(db, caches, out.hash);
    c.Some? && c.value.IsAvailable(out.n)
  }

  ghost function ValueIn(db: Database, caches: seq<Cache>, vin: seq<OutPoint>): int
    requires forall i :: 0 <= i < |vin| ==> Unspent(db, caches, vin[i])
  {
    if vin == [] then 0
    else
      var last := vin[|vin| - 1];
      assert Unspent(db, caches, last);
      ValueIn(db, caches, vin[..|vin| - 1]) + View(db, caches, last.hash).value.vout[last.n].value
  }

  datatype Op =
    | Read(txid: Hash)                 // AccessCoins / GetCoins
    | Edit(txid: Hash, coins: Coins)   // ModifyCoins, overwrite, release the modifier
    | Push                             // construct a cache on top of the stack
    | Flush                            // write the top cache to its base
    | Discard                          // destroy the top cache without flushing

  predicate Legal(op: Op, depth: nat) {
    op.Push? || depth > 1
  }

  function Put(s: Snapshot, txid: Hash, c: Coins): Snapshot {
    if c.IsPruned() then s - {txid} else s[txid := c.Cleanup()]
  }

  /** One operation on plain snapshots. */
  function Apply(op: Op, snaps: seq<Snapshot>): (r: seq<Snapshot>)
    requires Legal(op, |snaps|) && |snaps| > 0
    ensures |r| > 0
  {
    var n := |snaps| - 1;
    match op
    case Read(_) => snaps
    case Edit(t, c) => snaps[n := Put(snaps[n], t, c)]
    case Push => snaps + [snaps[n]]
    case Flush => snaps[n - 1 := snaps[n]]
    case Discard => snaps[..n]
  }

  function Answer(op: Op, snaps: seq<Snapshot>): Option<Coins>
    requires |snaps| > 0
  {
    if op.Read? || op.Edit? then Lookup(snaps[|snaps| - 1], op.txid) else None
  }

  predicate LegalRun(ops: seq<Op>, snaps: seq<Snapshot>)
    requires |snaps| > 0
    decreases |ops|
  {
    ops == [] || (Legal(ops[0], |snaps|) && LegalRun(ops[1..], Apply(ops[0], snaps)))
  }

  function ApplyAll(ops: seq<Op>, snaps: seq<Snapshot>): (r: seq<Snapshot>)
    requires |snaps| > 0 && LegalRun(ops, snaps)
    ensures |r| > 0
    decreases |ops|
  {
    if ops == [] then snaps else ApplyAll(ops[1..], Apply(ops[0], snaps))
  }

  function Answers(ops: seq<Op>, snaps: seq<Snapshot>): seq<Option<Coins>>
    requires |snaps| > 0 && LegalRun(ops, snaps)
    decreases |ops|
  {
    if ops == [] then [] else [Answer(ops[0], snaps)] + Answers(ops[1..], Apply(ops[0], snaps))
  }

  // ---------------------------------------------------------------- the caches

  /** The iteration order of the hash map is unspecified. */
  method AnyKey(m: Cache) returns (txid: Hash)
    requires m.Keys != {}
    ensures txid in m
  {
    ghost var w := SomeElement(m.Keys);
    txid :| txid in m.Keys;
  }

  class CoinsViewStack {
    var db: Database
    var caches: seq<Cache>
    /** The key of the live `CCoinsModifier` of the topmost cache, if there is one. */
    var modifier: Option<Hash>

    ghost predicate Valid()
      reads this
    {
      && StackOk(db, caches)
      && (modifier.Some? ==> caches != [] && modifier.value in caches[|caches| - 1]
                             && caches[|caches| - 1][modifier.value].isDirty)
    }

    constructor (db: Database)
      requires forall t :: t in db ==> db[t].Cleaned()
      ensures Valid() && this.db == db && caches == [] && modifier.None?
      ensures Refines(db, caches, [map t | t in db && !db[t].IsPruned() :: db[t]])
    {
      this.db := db;
      caches := [];
      modifier := None;
    }

    /** `GetCoins` of the base of `caches[level]`: the database, or the cache below. */
    method GetCoins(level: nat, txid: Hash) returns (found: bool, coins: Coins)
      requires level <= |caches| && StackOk(db, caches[..level])
      modifies this`caches
      ensures |caches| == |old(caches)| && caches[level..] == old(caches)[level..]
      ensures StackOk(db, caches[..level])
      ensures SameViews(db, old(caches), caches, level)
      ensures forall t :: HoldsKey(old(caches)[..level], t) ==> HoldsKey(caches[..level], t)
      ensures View(db, caches[..level], txid) == if found then Abs(coins) else None
      ensures found ==> coins.Cleaned() && HoldsKey(caches[..level], txid)
      decreases level, 0
    {
      if level == 0 {
        assert caches[..0] == [];
        coins := ClearedCoins;
        found := txid in db;
        if found {
          coins := db[txid];
          if coins.IsPruned() {
            found := *; // a base may deny having a fully spent record
          }
        }
      } else {
        found := FetchCoins(level - 1, txid);
        coins := if found then caches[level - 1][txid].coins else ClearedCoins;
        var upTo := caches[..level];
        assert upTo[..level - 1] == caches[..level - 1] && upTo[level - 1] == caches[level - 1];
        if found {
          assert EntryOk(upTo[level - 1][txid], View(db, upTo[..level - 1], txid), HoldsKey(upTo[..level - 1], txid));
        }
      }
    }

    /** `CCoinsViewCache::FetchCoins` of `caches[level]`: look up, else pull in from the base. */
    method FetchCoins(level: nat, txid: Hash) returns (found: bool)
      requires level < |caches| && StackOk(db, caches[..level + 1])
      modifies this`caches
      ensures |caches| == |old(caches)| && caches[level + 1..] == old(caches)[level + 1..]
      ensures StackOk(db, caches[..level + 1])
      ensures SameViews(db, old(caches), caches, level + 1)
      ensures forall t :: t in old(caches)[level] ==> t in caches[level] && caches[level][t] == old(caches)[level][t]
      ensures found <==> txid in caches[level]
      ensures View(db, caches[..level + 1], txid) == if found then Abs(caches[level][txid].coins) else None
      ensures found && txid !in old(caches)[level] ==>
        !caches[level][txid].isDirty && (caches[level][txid].isFresh <==> View(db, caches[..level], txid).None?)
      decreases level, 1
    {
      hide StackOk, LayerOk, View, EntryOk, HoldsKey;
      ghost var before := caches;
      assert before[..level + 1] == before[..level] + [before[level]];
      ViewOfPush(db, before[..level], before[level]);
      if txid in caches[level] {
        return true;
      }
      var tmp;
      found, tmp := GetCoins(level, txid);
      assert caches[level] == caches[level..][0] == before[level..][0] == before[level];
      LayerOkMono(db, before[..level], db, caches[..level], before[level]);
      ViewOfPush(db, caches[..level], before[level]);
      assert caches[..level + 1] == caches[..level] + [before[level]];
      if found {
        var ours := caches[level][txid := Entry(tmp, false, tmp.IsPruned())];
        PulledIn(db, caches[..level], before[level], txid, tmp);
        ViewOfPush(db, caches[..level], ours);
        ghost var mid := caches;
        caches := caches[level := ours];
        assert caches[..level] == mid[..level];
        assert forall k :: 0 <= k <= level ==> caches[..k] == mid[..k];
        assert caches[..level + 1] == caches[..level] + [ours];
        assert caches[level + 1..] == mid[level..][1..] == before[level..][1..] == before[level + 1..];
      } else {
        assert caches[level + 1..] == caches[level..][1..] == before[level..][1..] == before[level + 1..];
      }
    }

    ghost function Top(): Cache
      reads this
      requires caches != []
    {
      caches[|caches| - 1]
    }

    /** `AccessCoins` of the topmost cache; a reader never changes what any level shows. */
    method AccessCoins(txid: Hash) returns (r: Option<Coins>)
      requires Valid() && caches != [] && modifier.None?
      modifies this`caches
      ensures Valid() && |caches| == |old(caches)|
      ensures SameViews(db, old(caches), caches, |caches|)
      ensures SameView(db, old(caches), db, caches)
      ensures (if r.Some? then Abs(r.value) else None) == View(db, caches, txid)
      ensures r.Some? ==> r.value.Cleaned()
    {
      var n := |caches|;
      assert caches[..n] == caches;
      var found := FetchCoins(n - 1, txid);
      assert caches[..n] == caches && old(caches)[..n] == old(caches);
      if !found {
        return None;
      }
      assert EntryOk(caches[n - 1][txid], View(db, caches[..n - 1], txid), HoldsKey(caches[..n - 1], txid));
      return Some(caches[n - 1][txid].coins);
    }

    /** `HaveCoins` tests for an empty output vector, which here means the same as being spent. */
    method HaveCoins(txid: Hash) returns (r: bool)
      requires Valid() && caches != [] && modifier.None?
      modifies this`caches
      ensures Valid() && |caches| == |old(caches)|
      ensures SameViews(db, old(caches), caches, |caches|)
      ensures r <==> View(db, caches, txid).Some?
    {
      var c := AccessCoins(txid);
      r := c.Some? && c.value.vout != [];
    }

    /** `HaveInputs`: every output the transaction spends is unspent in the view. */
    method HaveInputs(tx: Tx) returns (r: bool)
      requires Valid() && caches != [] && modifier.None?
      modifies this`caches
      ensures Valid() && |caches| == |old(caches)| && SameView(db, old(caches), db, caches)
      ensures r <==> tx.coinBase || forall i :: 0 <= i < |tx.vin| ==> Unspent(db, old(caches), tx.vin[i])
    {
      if !tx.coinBase {
        for i := 0 to |tx.vin|
          invariant Valid() && |caches| == |old(caches)| && SameView(db, old(caches), db, caches)
          invariant forall j :: 0 <= j < i ==> Unspent(db, old(caches), tx.vin[j])
        {
          ghost var c0 := caches;
          var c := AccessCoins(tx.vin[i].hash);
          SameViewTrans(db, old(caches), c0, caches);
          assert View(db, old(caches), tx.vin[i].hash) == View(db, caches, tx.vin[i].hash);
          if c.None? || !c.value.IsAvailable(tx.vin[i].n) {
            return false;
          }
        }
      }
      return true;
    }

    /** `GetValueIn`: the sum of the spent outputs, as the view shows them. */
    method GetValueIn(tx: Tx) returns (total: int)
      requires Valid() && caches != [] && modifier.None?
      requires !tx.coinBase ==> forall i :: 0 <= i < |tx.vin| ==> Unspent(db, caches, tx.vin[i])
      modifies this`caches
      ensures Valid() && |caches| == |old(caches)| && SameView(db, old(caches), db, caches)
      ensures total == if tx.coinBase then 0 else ValueIn(db, old(caches), tx.vin)
    {
      total := 0;
      if tx.coinBase {
        return;
      }
      for i := 0 to |tx.vin|
        invariant Valid() && |caches| == |old(caches)| && SameView(db, old(caches), db, caches)
        invariant total == ValueIn(db, old(caches), tx.vin[..i])
      {
        ghost var c0 := caches;
        assert Unspent(db, old(caches), tx.vin[i]);
        var c := AccessCoins(tx.vin[i].hash);
        SameViewTrans(db, old(caches), c0, caches);
        assert View(db, old(caches), tx.vin[i].hash) == View(db, caches, tx.vin[i].hash);
        total := total + c.value.vout[tx.vin[i].n].value;
        assert tx.vin[..i + 1][..i] == tx.vin[..i];
      }
      assert tx.vin[..|tx.vin|] == tx.vin;
    }

    /** The insertion step of `ModifyCoins`: an entry that was not there is fresh exactly if the base shows nothing. */
    method InsertEntry(txid: Hash)
      requires Valid() && caches != [] && modifier.None?
      modifies this`caches
      ensures |caches| == |old(caches)| && txid in Top()
      ensures txid in old(Top()) ==> Top()[txid] == old(Top())[txid]
      ensures txid !in old(Top()) ==>
        !Top()[txid].isDirty && (Top()[txid].isFresh <==> View(db, caches[..|caches| - 1], txid).None?)
      ensures Valid() && SameViews(db, old(caches), caches, |caches|)
    {
      var n := |caches| - 1;
      assert caches[..n + 1] == caches;
      var found := FetchCoins(n, txid);
      assert caches[..n + 1] == caches;
      if !found {
        ghost var mid := caches;
        assert mid == mid[..n] + [mid[n]];
        ViewOfPush(db, mid[..n], mid[n]);
        var e := Entry(ClearedCoins, false, true);
        PullInLemma(db, mid[..n], mid[n], txid, e);
        caches := caches[n := caches[n][txid := e]];
        assert caches == mid[..n] + [caches[n]];
        ViewOfPush(db, mid[..n], caches[n]);
        assert old(caches)[..n + 1] == old(caches);
        SameViewTrans(db, old(caches), mid, caches);
        SameViewsUpTo(db, old(caches), mid, caches, n);
      }
    }

    /** `ModifyCoins`: fetch or create the entry, mark it dirty and hand out its coin. */
    method ModifyCoins(txid: Hash) returns (coins: Coins)
      requires Valid() && caches != [] && modifier.None?
      modifies this`caches, this`modifier
      ensures Valid() && modifier == Some(txid) && |caches| == |old(caches)|
      ensures SameViews(db, old(caches), caches, |caches|)
      ensures coins == Top()[txid].coins && Abs(coins) == View(db, caches, txid)
    {
      var n := |caches| - 1;
      InsertEntry(txid);
      ghost var mid := caches;
      assert mid == mid[..n] + [mid[n]];
      ViewOfPush(db, mid[..n], mid[n]);
      MarkDirtyLemma(db, mid[..n], mid[n], txid);
      caches := caches[n := caches[n][txid := caches[n][txid].(isDirty := true)]];
      assert caches == mid[..n] + [caches[n]];
      ViewOfPush(db, mid[..n], caches[n]);
      assert old(caches)[..n + 1] == old(caches) && mid[..n + 1] == mid;
      SameViewTrans(db, old(caches), mid, caches);
      SameViewsUpTo(db, old(caches), mid, caches, n);
      modifier := Some(txid);
      coins := caches[n][txid].coins;
    }

    /**
     * `~CCoinsModifier` after the holder left `c` in the entry: clean the coin up and
     * forget the entry when it is spent and the base never had it.
     */
    method ReleaseModifier(c: Coins)
      requires Valid() && modifier.Some?
      modifies this`caches, this`modifier
      ensures Valid() && modifier.None? && |caches| == |old(caches)|
      ensures caches[..|caches| - 1] == old(caches)[..|caches| - 1]
      ensures forall t :: View(db, caches, t) ==
                          if t == old(modifier).value then Abs(c.Cleanup()) else View(db, old(caches), t)
    {
      hide View;
      var txid := modifier.value;
      var n := |caches| - 1;
      ghost var below, top := caches[..n], caches[n];
      assert caches == below + [top];
      ViewOfPush(db, below, top);
      modifier := None;
      var cleaned := CleanupLoop(c);
      if caches[n][txid].isFresh && cleaned.IsPruned() {
        caches := caches[n := caches[n] - {txid}];
      } else {
        caches := caches[n := caches[n][txid := caches[n][txid].(coins := cleaned)]];
      }
      assert caches == below + [caches[n]];
      ViewOfPush(db, below, caches[n]);
      forall t | t in caches[n] ensures EntryOk(caches[n][t], View(db, below, t), HoldsKey(below, t)) {
        assert EntryOk(top[t], View(db, below, t), HoldsKey(below, t));
      }
    }

    /** One turn of the `BatchWrite` loop of a cache, for the child's entry `e`. */
    method WriteToCache(txid: Hash, e: Entry)
      requires Valid() && caches != [] && modifier.None?
      requires EntryOk(e, View(db, caches, txid), HoldsKey(caches, txid))
      modifies this`caches
      ensures Valid() && |caches| == |old(caches)|
      ensures caches[..|caches| - 1] == old(caches)[..|caches| - 1]
      ensures View(db, caches, txid) == Abs(e.coins)
      ensures forall t :: t != txid ==> View(db, caches, t) == View(db, old(caches), t)
                                        && (HoldsKey(caches, t) <==> HoldsKey(old(caches), t))
    {
      var n := |caches| - 1;
      ghost var below, ours := caches[..n], caches[n];
      assert caches == below + [ours];
      WriteEntryLemma(db, below, ours, txid, e);
      ViewOfPush(db, below, ours);
      if e.isDirty {
        if txid !in caches[n] {
          if !e.coins.IsPruned() {
            assert e.isFresh; // the assertion in the source
            caches := caches[n := caches[n][txid := Entry(e.coins, true, true)]];
          }
        } else if caches[n][txid].isFresh && e.coins.IsPruned() {
          caches := caches[n := caches[n] - {txid}];
        } else {
          caches := caches[n := caches[n][txid := Entry(e.coins, true, caches[n][txid].isFresh)]];
        }
      }
      assert caches == below + [WriteEntry(ours, txid, e)];
      ViewOfPush(db, below, WriteEntry(ours, txid, e));
    }

    /** One turn of the `BatchWrite` loop of the database: a changed record is written, or erased if it is fully spent. */
    method WriteToDatabase(txid: Hash, e: Entry)
      requires Valid() && caches == [] && modifier.None?
      requires EntryOk(e, View(db, caches, txid), true)
      modifies this`db
      ensures Valid()
      ensures db == if !e.isDirty then old(db) else if e.coins.IsPruned() then old(db) - {txid} else old(db)[txid := e.coins]
      ensures View(db, caches, txid) == Abs(e.coins)
      ensures forall t :: t != txid ==> View(db, caches, t) == View(old(db), caches, t)
    {
      if e.isDirty {
        if e.coins.IsPruned() {
          db := db - {txid};
        } else {
          db := db[txid := e.coins];
        }
      }
    }

    /**
     * `BatchWrite` of the current topmost cache (or the database): take over every dirty
     * entry of a child's cache. The entry-by-entry loop leaves the child empty.
     */
    method BatchWrite(child: Cache)
      requires Valid() && modifier.None?
      requires LayerOk(db, caches, child)
      modifies this`caches, this`db
      ensures Valid() && |caches| == |old(caches)|
      ensures caches == [] || db == old(db)
      ensures caches != [] ==> caches[..|caches| - 1] == old(caches)[..|caches| - 1]
      ensures forall t :: View(db, caches, t) == if t in child then Abs(child[t].coins) else View(old(db), old(caches), t)
    {
      hide StackOk;
      hide View;
      hide EntryOk;
      var mapCoins := child;
      while mapCoins.Keys != {}
        invariant Valid() && |caches| == |old(caches)|
        invariant caches == [] || db == old(db)
        invariant caches != [] ==> caches[..|caches| - 1] == old(caches)[..|caches| - 1]
        invariant mapCoins.Keys <= child.Keys && forall t :: t in mapCoins ==> mapCoins[t] == child[t]
        invariant LayerOk(db, caches, mapCoins)
        invariant forall t :: View(db, caches, t) == if t in child && t !in mapCoins then Abs(child[t].coins)
                                                     else View(old(db), old(caches), t)
        decreases |mapCoins|
      {
        var txid := AnyKey(mapCoins);
        var e := mapCoins[txid];
        ghost var db0, caches0 := db, caches;
        if caches == [] {
          WriteToDatabase(txid, e);
        } else {
          WriteToCache(txid, e);
        }
        StepKeepsRest(db0, caches0, db, caches, mapCoins, txid);
        mapCoins := mapCoins - {txid};
      }
    }

    /** `Flush` of the topmost cache: afterwards its base shows what it showed itself. */
    method Flush()
      requires Valid() && caches != [] && modifier.None?
      modifies this`caches, this`db
      ensures Valid() && |caches| == |old(caches)| && Top() == map[]
      ensures |caches| == 1 || db == old(db)
      ensures |caches| > 1 ==> caches[..|caches| - 2] == old(caches)[..|caches| - 2]
      ensures forall t :: View(db, caches[..|caches| - 1], t) == View(old(db), old(caches), t)
      ensures forall t :: View(db, caches, t) == View(old(db), old(caches), t)
    {
      var n := |caches| - 1;
      var cacheCoins := caches[n];
      ghost var below := caches[..n];
      assert caches == below + [cacheCoins];
      ViewOfPush(db, below, cacheCoins);
      caches := caches[..n];
      BatchWrite(cacheCoins);
      ViewOfPush(db, caches, map[]);
      caches := caches + [map[]];
      assert caches[..n] == caches[..|caches| - 1];
      assert n > 0 ==> caches[..n - 1] == caches[..n][..n - 1] && below[..n - 1] == old(caches)[..n - 1];
    }

    /** Construct a cache whose base is the current topmost view. */
    method Push()
      requires Valid() && modifier.None?
      modifies this`caches
      ensures Valid() && caches == old(caches) + [map[]]
    {
      ViewOfPush(db, caches, map[]);
      caches := caches + [map[]];
    }

    /** Destroy the topmost cache; unflushed changes are forgotten. */
    method Discard()
      requires Valid() && caches != [] && modifier.None?
      modifies this`caches
      ensures Valid() && caches == old(caches)[..|old(caches)| - 1]
    {
      caches := caches[..|caches| - 1];
    }

    /** A whole `ModifyCoins` statement: obtain the coin, overwrite it, let the modifier go. */
    method EditCoins(txid: Hash, c: Coins) returns (before: Coins)
      requires Valid() && caches != [] && modifier.None?
      modifies this
      ensures Valid() && modifier.None? && |caches| == |old(caches)| && db == old(db)
      ensures Abs(before) == View(db, old(caches), txid)
      ensures SameViews(db, old(caches), caches, |caches| - 1)
      ensures forall t :: View(db, caches, t) == if t == txid then Abs(c.Cleanup()) else View(db, old(caches), t)
    {
      ghost var n := |caches|;
      before := ModifyCoins(txid);
      ghost var mid := caches;
      assert mid[..n] == mid && old(caches)[..n] == old(caches);
      assert SameView(db, old(caches), db, mid);
      ReleaseModifier(c);
      assert forall k :: 0 <= k < n ==> caches[..k] == caches[..n - 1][..k] == mid[..k];
    }

    /** One client operation, with the answer the client sees (a spent coin reads as none). */
    method Step(op: Op, ghost snaps: seq<Snapshot>) returns (answer: Option<Coins>)
      requires Valid() && modifier.None? && Refines(db, caches, snaps) && Legal(op, |snaps|)
      modifies this
      ensures Valid() && modifier.None? && Refines(db, caches, Apply(op, snaps))
      ensures answer == Answer(op, snaps)
    {
      hide StackOk;
      hide LayerOk;
      hide View;
      ghost var n := |caches|;
      assert caches[..n] == caches;
      answer := None;
      match op {
        case Read(txid) =>
          var r := AccessCoins(txid);
          answer := if r.Some? then Abs(r.value) else None;
          RefinesOfSameViews(db, old(caches), caches, snaps);
        case Edit(txid, c) =>
          var before := EditCoins(txid, c);
          answer := Abs(before);
          RefinesTop(db, old(caches), caches, snaps, Put(snaps[n], txid, c));
        case Push =>
          Push();
          RefinesPush(db, old(caches), snaps);
        case Flush =>
          Flush();
          RefinesFlush(old(db), db, old(caches), caches, snaps);
        case Discard =>
          Discard();
          assert forall k :: 0 <= k < n ==> caches[..k] == old(caches)[..k];
      }
    }

    /**
     * Every run of reads, edits, pushes, flushes and discards is indistinguishable from the
     * same run on plain snapshots: all answers agree, and so do all levels at the end.
     */
    method Run(ops: seq<Op>, ghost snaps: seq<Snapshot>) returns (answers: seq<Option<Coins>>)
      requires Valid() && modifier.None? && Refines(db, caches, snaps) && LegalRun(ops, snaps)
      modifies this
      ensures Valid() && modifier.None? && Refines(db, caches, ApplyAll(ops, snaps))
      ensures answers == Answers(ops, snaps)
    {
      hide StackOk, LayerOk, View, Shows, Apply, Answer, Legal;
      answers := [];
      ghost var s := snaps;
      var i := 0;
      assert ops[0..] == ops;
      while i < |ops|
        invariant 0 <= i <= |ops|
        invariant Valid() && modifier.None? && Refines(db, caches, s) && LegalRun(ops[i..], s)
        invariant ApplyAll(ops[i..], s) == ApplyAll(ops, snaps)
        invariant answers + Answers(ops[i..], s) == Answers(ops, snaps)
      {
        assert ops[i..][1..] == ops[i + 1..];
        var a := Step(ops[i], s);
        answers := answers + [a];
        s := Apply(ops[i], s);
        i := i + 1;
      }
    }
  }
}
