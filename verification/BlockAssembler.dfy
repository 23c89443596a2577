/** The code of `CreateNewBlock` on the cache stack (src/miner.cpp). */
module BlockAssembler {
  import opened Common
  import opened Coins
  import opened CoinsCache
  import opened BlockUndo
  import opened BlockAssembly
  import opened BlockPool
  import opened BlockSelection
  import opened BlockOutcome

  // ---------------------------------------------------------------- reading the view

  lemma ShowsSame(db: Database, a: seq<Cache>, b: seq<Cache>, s: Snapshot)
    requires Shows(db, a, s) && SameView(db, a, db, b)
    ensures Shows(db, b, s)
  {
    forall t ensures View(db, b, t) == Lookup(s, t) {
      assert View(db, a, t) == View(db, b, t);
    }
  }

  /** `AccessCoins`, as a client of a view that shows `s` sees it. */
  method Access(view: CoinsViewStack, txid: Hash, ghost s: Snapshot) returns (r: Option<Coins>)
    requires Ready(view, s)
    modifies view`caches
    ensures Ready(view, s) && |view.caches| == |old(view.caches)|
    ensures txid in s ==> r == Some(s[txid]) && s[txid].vout != []
    ensures txid !in s ==> r.None? || r.value.vout == []
  {
    hide View, StackOk, LayerOk;
    r := view.AccessCoins(txid);
    ShowsSame(view.db, old(view.caches), view.caches, s);
    assert View(view.db, view.caches, txid) == Lookup(s, txid);
  }

  /** `HaveCoins`. */
  method Have(view: CoinsViewStack, txid: Hash, ghost s: Snapshot) returns (r: bool)
    requires Ready(view, s)
    modifies view`caches
    ensures Ready(view, s) && |view.caches| == |old(view.caches)|
    ensures r <==> txid in s
  {
    var c := Access(view, txid, s);
    r := c.Some? && c.value.vout != [];
  }

  lemma {:induction false} SameValueIn(db: Database, caches: seq<Cache>, s: Snapshot, vin: seq<OutPoint>)
    requires Shows(db, caches, s) && forall i :: 0 <= i < |vin| ==> Spendable(s, vin[i])
    ensures forall i :: 0 <= i < |vin| ==> Unspent(db, caches, vin[i])
    ensures ValueIn(db, caches, vin) == SumIn(s, vin)
    decreases |vin|
  {
    hide View;
    forall i | 0 <= i < |vin| ensures Unspent(db, caches, vin[i]) {
      assert View(db, caches, vin[i].hash) == Lookup(s, vin[i].hash);
    }
    if vin != [] {
      var last := vin[|vin| - 1];
      assert View(db, caches, last.hash) == Lookup(s, last.hash);
      SameValueIn(db, caches, s, vin[..|vin| - 1]);
    }
  }

  /** `HaveInputs`. */
  method HaveAll(view: CoinsViewStack, tx: Tx, ghost s: Snapshot) returns (r: bool)
    requires Ready(view, s) && !tx.coinBase
    modifies view`caches
    ensures Ready(view, s) && |view.caches| == |old(view.caches)|
    ensures r <==> HaveInputs(s, tx)
  {
    hide View, StackOk, LayerOk;
    forall i | 0 <= i < |tx.vin| ensures Unspent(view.db, view.caches, tx.vin[i]) <==> Spendable(s, tx.vin[i]) {
      assert View(view.db, view.caches, tx.vin[i].hash) == Lookup(s, tx.vin[i].hash);
    }
    r := view.HaveInputs(tx);
    ShowsSame(view.db, old(view.caches), view.caches, s);
  }

  /** `GetValueIn`. */
  method ValueOfInputs(view: CoinsViewStack, tx: Tx, ghost s: Snapshot) returns (total: int)
    requires Ready(view, s) && !tx.coinBase && HaveInputs(s, tx)
    modifies view`caches
    ensures Ready(view, s) && |view.caches| == |old(view.caches)|
    ensures total == SumIn(s, tx.vin)
  {
    hide View, StackOk, LayerOk, ValueIn, SumIn;
    SameValueIn(view.db, view.caches, s, tx.vin);
    total := view.GetValueIn(tx);
    ShowsSame(view.db, old(view.caches), view.caches, s);
  }

  /** The coin records behind the inputs, for the checks that look at them. */
  method FetchInputs(view: CoinsViewStack, tx: Tx, ghost s: Snapshot) returns (prev: seq<Coins>)
    requires Ready(view, s) && HaveInputs(s, tx)
    modifies view`caches
    ensures Ready(view, s) && |view.caches| == |old(view.caches)|
    ensures prev == InputCoins(s, tx)
  {
    hide View, StackOk, LayerOk, Shows;
    prev := [];
    var i := 0;
    while i < |tx.vin|
      invariant 0 <= i <= |tx.vin| && |prev| == i
      invariant Ready(view, s) && |view.caches| == |old(view.caches)|
      invariant forall j :: 0 <= j < i ==> prev[j] == InputCoins(s, tx)[j]
    {
      assert Spendable(s, tx.vin[i]);
      var c := Access(view, tx.vin[i].hash, s);
      prev := prev + [c.value];
      i := i + 1;
    }
  }

  method ValueOut(tx: Tx) returns (total: int)
    ensures total == SumOut(tx.vout)
  {
    total := 0;
    for i := 0 to |tx.vout|
      invariant total == SumOut(tx.vout[..i])
    {
      assert tx.vout[..i + 1][..i] == tx.vout[..i];
      total := total + tx.vout[i].value;
    }
    assert tx.vout[..|tx.vout|] == tx.vout;
  }

  // ---------------------------------------------------------------- the selection loop

  class Assembler {
    const rules: Rules
    const view: CoinsViewStack
    const dependers: Dependers
    /** The transactions whose dependers include one that is gone. */
    const stale: set<Hash>
    var vecPriority: seq<Candidate>
    var vOrphan: seq<Orphan>
    var fSortedByFee: bool
    var vtx: seq<Tx>
    var vTxFees: seq<int>
    var vTxSigOps: seq<int>
    var nBlockSize: int
    var nBlockSigOps: int
    var nFees: int
    /** What the view shows, and the transactions taken off the queue. */
    ghost var coins: Snapshot
    ghost var taken: seq<Hash>

    ghost function Now(): Work
      reads this
    {
      Work(coins, vecPriority, vOrphan, fSortedByFee, taken, vtx, vTxFees, vTxSigOps, nBlockSize, nBlockSigOps, nFees)
    }

    /** The start of the loop, with what was collected from the pool. */
    constructor (rules: Rules, view: CoinsViewStack, heap: seq<Candidate>, orphans: seq<Orphan>, dependers: Dependers,
                 stale: set<Hash>, ghost s: Snapshot)
      ensures this.rules == rules && this.view == view && this.dependers == dependers && this.stale == stale
      ensures Now() == Work(s, heap, orphans, rules.prioritySize <= 0, [], [], [], [], 1000, 100, 0)
    {
      this.rules, this.view, this.dependers, this.stale := rules, view, dependers, stale;
      vecPriority, vOrphan, fSortedByFee := heap, orphans, rules.prioritySize <= 0;
      vtx, vTxFees, vTxSigOps := [], [], [];
      nBlockSize, nBlockSigOps, nFees := 1000, 100, 0;
      coins, taken := s, [];
    }

    /**
     * The front of the priority queue is an element that none is higher than: sorted by fee, none has a higher rate, and
     * none of the same rate a higher priority; otherwise none has a higher priority, and none of the same a higher rate.
     */
    method TakeHighest() returns (c: Candidate, ghost i: nat)
      requires vecPriority != []
      modifies this`vecPriority, this`taken
      ensures Highest(old(Now()), i) && c == old(vecPriority)[i] && Now() == Popped(old(Now()), i)
      ensures fSortedByFee ==> forall x :: x in old(vecPriority) ==>
        x.feeRate < c.feeRate || (x.feeRate == c.feeRate && x.priority <= c.priority)
      ensures !fSortedByFee ==> forall x :: x in old(vecPriority) ==>
        x.priority < c.priority || (x.priority == c.priority && x.feeRate <= c.feeRate)
    {
      var best, k := 0, 1;
      while k < |vecPriority|
        invariant 0 <= best < k <= |vecPriority|
        invariant forall j :: 0 <= j < k ==> !Less(fSortedByFee, vecPriority[best], vecPriority[j])
      {
        if Less(fSortedByFee, vecPriority[best], vecPriority[k]) {
          best := k;
        }
        k := k + 1;
      }
      c, i := vecPriority[best], best;
      vecPriority := vecPriority[..best] + vecPriority[best + 1..];
      taken := taken + [c.tx.hash];
    }

    /** Tell the dependers of a transaction that it is in the block. */
    method ReleaseDependers(hash: Hash)
      modifies this`vecPriority, this`vOrphan
      ensures var ks := Waiters(dependers, hash); Now() == Release(old(Now()), ks, |ks|, hash)
    {
      if hash in dependers {
        var ks := dependers[hash];
        var n := 0;
        while n < |ks|
          invariant 0 <= n <= |ks| && Now() == Release(old(Now()), ks, n, hash)
        {
          var k := ks[n];
          if k < |vOrphan| && vOrphan[k].dependsOn != {} {
            vOrphan := vOrphan[k := vOrphan[k].(dependsOn := vOrphan[k].dependsOn - {hash})];
            if vOrphan[k].dependsOn == {} {
              vecPriority := vecPriority + [vOrphan[k].candidate];
            }
          }
          n := n + 1;
        }
      }
    }

    /** Add a transaction to the block. */
    method Include(tx: Tx, nTxFees: int, nTxSigOps: nat)
      requires Ready(view, coins) && HaveInputs(coins, tx) && Connectable(coins, tx)
      requires nTxFees == FeeOf(coins, tx) && nTxSigOps == SigOpsOf(rules, coins, tx)
      modifies this`coins, this`vtx, this`vTxFees, this`vTxSigOps, this`nBlockSize, this`nBlockSigOps, this`nFees, view
      ensures Ready(view, coins) && Now() == Included(rules, old(Now()), tx)
    {
      hide ConnectTx, Connectable, Ready, FeeOf, SigOpsOf, HaveInputs, InputCoins, View, StackOk, LayerOk, Shows;
      hide RecordOf, Loses, UndoOf;
      var _ := UpdateCoins(view, tx, rules.height, coins);
      coins := ConnectTx(coins, tx, rules.height).0;
      vtx := vtx + [tx];
      vTxFees := vTxFees + [nTxFees];
      vTxSigOps := vTxSigOps + [nTxSigOps];
      nBlockSize := nBlockSize + rules.size(tx);
      nBlockSigOps := nBlockSigOps + nTxSigOps;
      nFees := nFees + nTxFees;
    }

    /** One pass of the loop: the highest candidate is tried and, if it passes every test, included. */
    method Consider() returns (ghost i: nat)
      requires Ready(view, coins) && vecPriority != []
      requires forall k :: 0 <= k < |vecPriority| ==> Proper(vecPriority[k].tx)
      modifies this`vecPriority, this`taken, this`fSortedByFee, this`vOrphan
      modifies this`coins, this`vtx, this`vTxFees, this`vTxSigOps, this`nBlockSize, this`nBlockSigOps, this`nFees, view
      ensures Ready(view, coins) && Highest(old(Now()), i)
      ensures Proper(old(vecPriority)[i].tx) && Now() == Considered(rules, dependers, old(Now()), i)
    {
      hide Ready, Less, ConnectTx, Connectable, FeeOf, InputCoins, HaveInputs, Release, Included, AllowFree;
      ghost var w := Now();
      var c;
      c, i := TakeHighest();
      var tx := c.tx;
      assert Proper(tx);
      var nTxSize := rules.size(tx);
      if nBlockSize + nTxSize >= rules.maxSize {
        return;
      }
      var nTxSigOps := rules.legacySigOps(tx);
      if nBlockSigOps + nTxSigOps >= MAX_BLOCK_SIGOPS {
        return;
      }
      if fSortedByFee && rules.priorityDelta(tx.hash) <= 0.0 && rules.feeDelta(tx.hash) <= 0
         && c.feeRate < rules.minRelayFee && nBlockSize + nTxSize >= rules.minSize {
        return;
      }
      assert Admissible(rules, w, c);
      if !fSortedByFee && (nBlockSize + nTxSize >= rules.prioritySize || !AllowFree(c.priority)) {
        fSortedByFee := true;
      }
      assert fSortedByFee == NowByFee(rules, w, c);
      var have := HaveAll(view, tx, coins);
      if !have {
        return;
      }
      var nValueIn := ValueOfInputs(view, tx, coins);
      var nValueOut := ValueOut(tx);
      var prev := FetchInputs(view, tx, coins);
      nTxSigOps := nTxSigOps + rules.p2shSigOps(tx, prev);
      if nBlockSigOps + nTxSigOps >= MAX_BLOCK_SIGOPS {
        return;
      }
      if !rules.checkInputs(tx, prev) {
        return;
      }
      assert Acceptable(rules, w, tx);
      assert Connectable(coins, tx) by { CanConnect(coins, tx); }
      assert nValueIn - nValueOut == FeeOf(coins, tx) by { FeeDef(coins, tx); }
      Include(tx, nValueIn - nValueOut, nTxSigOps);
      ReleaseDependers(tx.hash);
    }

    /**
     * The loop; it ends because every pass leaves fewer transactions queued or waiting. It has no defined outcome
     * once it tells the dependers of a transaction one of which is gone.
     */
    method Assemble(ghost s0: Snapshot, ghost eligible: multiset<Hash>) returns (defined: bool, ghost trace: seq<Work>)
      requires Ready(view, coins) && BlockAssembly.Good(rules, s0, dependers, Now(), eligible) && vtx == []
      modifies this`vecPriority, this`taken, this`fSortedByFee, this`vOrphan
      modifies this`coins, this`vtx, this`vTxFees, this`vTxSigOps, this`nBlockSize, this`nBlockSigOps, this`nFees, view
      ensures Ready(view, coins) && (defined ==> vecPriority == [])
      ensures defined <==> BlockHashes(vtx) !! stale
      ensures IsRun(rules, dependers, trace) && trace[0] == old(Now()) && trace[|trace| - 1] == Now()
      ensures BlockAssembly.Good(rules, s0, dependers, Now(), eligible)
    {
      hide Ready, Considered, Good, Left, Highest, Passes, BlockHashes;
      trace, defined := [Now()], true;
      assert BlockHashes([]) == {} by { NoHashes(); }
      while vecPriority != []
        invariant Ready(view, coins) && BlockAssembly.Good(rules, s0, dependers, Now(), eligible)
        invariant IsRun(rules, dependers, trace) && trace[0] == old(Now()) && trace[|trace| - 1] == Now()
        invariant BlockHashes(vtx) !! stale
        decreases Left(Now())
      {
        ghost var w := Now();
        AllProper(rules, s0, dependers, w, eligible);
        ghost var i := Consider();
        HighestBound(w, i);
        ConsideredGood(rules, s0, dependers, w, i, eligible);
        ConsideredEffect(rules, dependers, w, i);
        MoreHashes(w.block, w.heap[i].tx);
        assert Pass(rules, dependers, w, Now());
        RunMore(rules, dependers, trace, Now());
        trace := trace + [Now()];
        if vtx != [] && vtx[|vtx| - 1].hash in stale {
          assert vtx[|vtx| - 1].hash in BlockHashes(vtx) by { LastHash(vtx); }
          defined := false;
          return;
        }
      }
    }
  }

  lemma NoHashes()
    ensures BlockHashes([]) == {}
  {
  }

  lemma LastHash(block: seq<Tx>)
    requires block != []
    ensures block[|block| - 1].hash in BlockHashes(block)
  {
  }

  lemma HighestBound(w: Work, i: nat)
    requires Highest(w, i)
    ensures i < |w.heap|
  {
  }

  lemma RunMore(rules: Rules, deps: Dependers, trace: seq<Work>, w: Work)
    requires IsRun(rules, deps, trace) && Pass(rules, deps, trace[|trace| - 1], w)
    ensures IsRun(rules, deps, trace + [w])
  {
    hide Pass;
    var r := trace + [w];
    forall k | 0 <= k < |r| - 1 ensures Pass(rules, deps, r[k], r[k + 1]) {
      if k < |trace| - 1 {
        assert Pass(rules, deps, trace[k], trace[k + 1]);
      }
    }
  }

  lemma AllProper(rules: Rules, s0: Snapshot, deps: Dependers, w: Work, eligible: multiset<Hash>)
    requires Good(rules, s0, deps, w, eligible)
    ensures forall k :: 0 <= k < |w.heap| ==> Proper(w.heap[k].tx)
  {
  }

  lemma CanConnect(s: Snapshot, tx: Tx)
    requires HaveInputs(s, tx) && Proper(tx)
    ensures Connectable(s, tx)
  {
    DistinctSpendable(s, tx.vin);
  }

  lemma FeeDef(s: Snapshot, tx: Tx)
    requires HaveInputs(s, tx)
    ensures FeeOf(s, tx) == SumIn(s, tx.vin) - SumOut(tx.vout)
  {
  }

  // ---------------------------------------------------------------- collecting the pool

  lemma MissingStep(s0: Snapshot, vin: seq<OutPoint>, out: OutPoint)
    ensures MissingOf(s0, vin + [out]) == MissingOf(s0, vin) + if out.hash in s0 then {} else {out.hash}
  {
    var v := vin + [out];
    forall x | x in MissingOf(s0, vin) ensures x in MissingOf(s0, v) {
      var i :| 0 <= i < |vin| && vin[i].hash == x && x !in s0;
      assert v[i].hash == x;
    }
    assert v[|vin|] == out;
  }

  /** Another input waits for `hash`. */
  function Noted(deps: Dependers, hash: Hash, idx: nat): Dependers {
    deps[hash := Waiters(deps, hash) + [idx]]
  }

  /** Everyone told under `a` is told under `b`. */
  ghost predicate Extends(a: Dependers, b: Dependers) {
    forall x: Hash, k: nat :: k in Waiters(a, x) ==> k in Waiters(b, x)
  }

  lemma NotedExtends(a: Dependers, deps: Dependers, hash: Hash, idx: nat)
    requires Extends(a, deps)
    ensures Extends(a, Noted(deps, hash, idx)) && Extends(deps, Noted(deps, hash, idx)) && idx in Waiters(Noted(deps, hash, idx), hash)
  {
    var b := Noted(deps, hash, idx);
    assert Waiters(b, hash) == Waiters(deps, hash) + [idx];
    forall x: Hash, k: nat | k in Waiters(deps, x) ensures k in Waiters(b, x) {
      assert x != hash ==> Waiters(b, x) == Waiters(deps, x);
    }
  }

  /** The missing parents noted before input `i`, which is nowhere, are the stale ones. */
  lemma NotedIsStale(s0: Snapshot, pool: Pool, tx: Tx, i: nat)
    requires i < |tx.vin| && Nowhere(s0, pool, tx.vin[i]) && forall j :: 0 <= j < i ==> !Nowhere(s0, pool, tx.vin[j])
    ensures IsDropped(s0, pool, tx) && MissingOf(s0, tx.vin[..i]) == StaleOf(s0, pool, tx)
  {
    forall j | 0 <= j < |tx.vin| ensures StaleAt(s0, pool, tx, j) <==> j < i && tx.vin[j].hash !in s0 {
      assert Reached(s0, pool, tx, j) <==> j < i;
    }
    hide StaleAt, Nowhere;
    forall x | x in MissingOf(s0, tx.vin[..i]) ensures x in StaleOf(s0, pool, tx) {
      var j :| 0 <= j < i && tx.vin[..i][j].hash == x && x !in s0;
      assert StaleAt(s0, pool, tx, j) && tx.vin[j].hash == x;
    }
    forall x | x in StaleOf(s0, pool, tx) ensures x in MissingOf(s0, tx.vin[..i]) {
      var j :| 0 <= j < |tx.vin| && StaleAt(s0, pool, tx, j) && tx.vin[j].hash == x;
      assert tx.vin[..i][j].hash == x;
    }
  }

  lemma ReachedNext(height: int, s0: Snapshot, pool: Pool, tx: Tx, i: nat)
    requires i < |tx.vin| && (forall j :: 0 <= j <= i ==> !Nowhere(s0, pool, tx.vin[j])) && AllConnect(s0, pool, tx.vin[..i])
    requires forall j :: Reached(s0, pool, tx, j) ==> Connects(s0, pool, tx.vin[j])
    ensures Connects(s0, pool, tx.vin[i]) && AllConnect(s0, pool, tx.vin[..i + 1])
    ensures var out := tx.vin[i];
            if out.hash in s0 then
              && out.n < |s0[out.hash].vout|
              && var value := s0[out.hash].vout[out.n].value;
              && TotalIn(s0, pool, tx.vin[..i + 1]) == TotalIn(s0, pool, tx.vin[..i]) + value
              && Age(height, s0, pool, tx.vin[..i + 1]) == Age(height, s0, pool, tx.vin[..i]) + (value * (height - s0[out.hash].height)) as real
            else
              && out.hash in pool && out.n < |pool[out.hash].vout|
              && TotalIn(s0, pool, tx.vin[..i + 1]) == TotalIn(s0, pool, tx.vin[..i]) + pool[out.hash].vout[out.n].value
              && Age(height, s0, pool, tx.vin[..i + 1]) == Age(height, s0, pool, tx.vin[..i])
  {
    assert Reached(s0, pool, tx, i);
    assert tx.vin[..i + 1][..i] == tx.vin[..i];
  }

  /**
   * The loop over the inputs: which parents are missing, who waits for them, and what the inputs are worth. At an input
   * that is nowhere it ends and the transaction is dropped; the entry it may have got is gone, but stays noted under the
   * parents in `dependsOn`.
   */
  method Inspect(rules: Rules, view: CoinsViewStack, tx: Tx, pool: Pool, idx: nat, deps0: Dependers, ghost s0: Snapshot)
    returns (dropped: bool, dependsOn: set<Hash>, deps: Dependers, nTotalIn: int, dPriority: real)
    requires Ready(view, s0) && forall i :: Reached(s0, pool, tx, i) ==> Connects(s0, pool, tx.vin[i])
    modifies view`caches
    ensures Ready(view, s0) && (dropped <==> IsDropped(s0, pool, tx))
    ensures dropped ==> dependsOn == StaleOf(s0, pool, tx) && deps == deps0
    ensures !dropped ==>
      && AllConnect(s0, pool, tx.vin) && dependsOn == Missing(s0, tx)
      && nTotalIn == TotalIn(s0, pool, tx.vin) && dPriority == Age(rules.height, s0, pool, tx.vin)
      && Extends(deps0, deps) && forall x :: x in dependsOn ==> idx in Waiters(deps, x)
  {
    hide View, StackOk, LayerOk, Shows, MissingOf, Waiters, Noted, Extends, Connects, StaleOf, AllConnect, IsDropped, Reached, TotalIn, Age;
    dropped, dependsOn, deps, nTotalIn, dPriority := false, {}, deps0, 0, 0.0;
    assert Extends(deps0, deps0) by { ExtendsSelf(deps0); }
    assert MissingOf(s0, tx.vin[..0]) == {} by { NoneMissing(s0); }
    InspectStart(rules.height, s0, pool);
    var i := 0;
    while i < |tx.vin|
      invariant 0 <= i <= |tx.vin| && Ready(view, s0)
      invariant (forall j :: 0 <= j < i ==> !Nowhere(s0, pool, tx.vin[j])) && AllConnect(s0, pool, tx.vin[..i])
      invariant dependsOn == MissingOf(s0, tx.vin[..i])
      invariant nTotalIn == TotalIn(s0, pool, tx.vin[..i]) && dPriority == Age(rules.height, s0, pool, tx.vin[..i])
      invariant Extends(deps0, deps) && forall x :: x in dependsOn ==> idx in Waiters(deps, x)
    {
      var out := tx.vin[i];
      assert tx.vin[..i + 1] == tx.vin[..i] + [out];
      MissingStep(s0, tx.vin[..i], out);
      var have := Have(view, out.hash, s0);
      if !have {
        if out.hash !in pool {
          NotedIsStale(s0, pool, tx, i);
          dropped, deps := true, deps0;
          return;
        }
        ReachedNext(rules.height, s0, pool, tx, i);
        NotedExtends(deps0, deps, out.hash, idx);
        KeepsTelling(deps, Noted(deps, out.hash, idx), dependsOn, idx);
        deps := NoteOne(deps, out.hash, idx);
        dependsOn := dependsOn + {out.hash};
        nTotalIn := nTotalIn + pool[out.hash].vout[out.n].value;
      } else {
        ReachedNext(rules.height, s0, pool, tx, i);
        var coins := Access(view, out.hash, s0);
        var nValueIn := coins.value.vout[out.n].value;
        nTotalIn := nTotalIn + nValueIn;
        var nConf := rules.height - coins.value.height;
        dPriority := dPriority + (nValueIn * nConf) as real;
      }
      i := i + 1;
    }
    assert tx.vin[..i] == tx.vin;
    NoneNowhere(s0, pool, tx);
  }

  lemma InspectStart(height: int, s0: Snapshot, pool: Pool)
    ensures AllConnect(s0, pool, []) && TotalIn(s0, pool, []) == 0 && Age(height, s0, pool, []) == 0.0
  {
  }

  lemma NoneNowhere(s0: Snapshot, pool: Pool, tx: Tx)
    requires forall j :: 0 <= j < |tx.vin| ==> !Nowhere(s0, pool, tx.vin[j])
    ensures !IsDropped(s0, pool, tx)
  {
  }

  method NoteOne(deps: Dependers, hash: Hash, idx: nat) returns (r: Dependers)
    ensures r == Noted(deps, hash, idx)
  {
    r := deps[hash := (if hash in deps then deps[hash] else []) + [idx]];
  }

  lemma ExtendsSelf(a: Dependers)
    ensures Extends(a, a)
  {
  }

  lemma NoneMissing(s0: Snapshot)
    ensures MissingOf(s0, []) == {}
  {
  }

  lemma KeepsTelling(a: Dependers, b: Dependers, xs: set<Hash>, idx: nat)
    requires Extends(a, b) && forall x :: x in xs ==> idx in Waiters(a, x)
    ensures forall x :: x in xs ==> idx in Waiters(b, x)
  {
    hide Waiters;
  }

  lemma StartGood(rules: Rules, s0: Snapshot)
    ensures Good(rules, s0, map[], Start(rules, s0, [], []), multiset{})
  {
    assert HashesOf([]) == [] && TxHashes([]) == [];
  }

  /** A transaction without missing parents joins the queue. */
  lemma AddReady(rules: Rules, s0: Snapshot, deps: Dependers, deps': Dependers, heap: seq<Candidate>, orphans: seq<Orphan>,
                 c: Candidate, eligible: multiset<Hash>)
    requires Good(rules, s0, deps, Start(rules, s0, heap, orphans), eligible) && Extends(deps, deps')
    requires Proper(c.tx) && Missing(s0, c.tx) == {}
    ensures Good(rules, s0, deps', Start(rules, s0, heap + [c], orphans), eligible + multiset{c.tx.hash})
  {
    hide Missing, Waiting, HashesOf, Waiters, RightAt;
    var w, r := Start(rules, s0, heap, orphans), Start(rules, s0, heap + [c], orphans);
    HashesSnoc(heap, c);
    assert Replays(rules, s0, r) && WithinLimits(rules, r) && ExactDependencies(s0, r);
    forall i | 0 <= i < |r.heap| ensures Proper(r.heap[i].tx) && Missing(s0, r.heap[i].tx) <= BlockHashes([]) {
      assert i < |heap| ==> r.heap[i] == w.heap[i];
    }
    ReadyAccounts(heap, orphans, eligible, c);
  }

  lemma ReadyAccounts(heap: seq<Candidate>, orphans: seq<Orphan>, eligible: multiset<Hash>, c: Candidate)
    requires multiset(HashesOf(heap)) + Waiting(orphans) + multiset([]) == eligible
    ensures multiset(HashesOf(heap + [c])) + Waiting(orphans) + multiset([]) == eligible + multiset{c.tx.hash}
  {
    hide Waiting, HashesOf;
    HashesSnoc(heap, c);
  }

  /** A transaction with missing parents waits, and its parents know. */
  lemma AddOrphan(rules: Rules, s0: Snapshot, deps: Dependers, deps': Dependers, heap: seq<Candidate>, orphans: seq<Orphan>,
                  o: Orphan, eligible: multiset<Hash>)
    requires Good(rules, s0, deps, Start(rules, s0, heap, orphans), eligible) && Extends(deps, deps')
    requires Proper(o.candidate.tx) && Missing(s0, o.candidate.tx) == o.dependsOn != {}
    requires forall x :: x in o.dependsOn ==> |orphans| in Waiters(deps', x)
    ensures Good(rules, s0, deps', Start(rules, s0, heap, orphans + [o]), eligible + multiset{o.candidate.tx.hash})
  {
    hide Missing, Waiting, HashesOf, Waiters, RightAt;
    var w, r := Start(rules, s0, heap, orphans), Start(rules, s0, heap, orphans + [o]);
    assert Replays(rules, s0, r) && WithinLimits(rules, r) && QueueReady(s0, r);
    forall k | 0 <= k < |r.orphans|
      ensures Proper(r.orphans[k].candidate.tx)
      ensures r.orphans[k].dependsOn == Missing(s0, r.orphans[k].candidate.tx) - BlockHashes([])
    {
      assert k < |orphans| ==> r.orphans[k] == w.orphans[k];
      assert BlockHashes([]) == {};
    }
    forall k: nat, x: Hash | k < |r.orphans| && x in Missing(s0, r.orphans[k].candidate.tx) ensures k in Waiters(deps', x) {
      assert k < |orphans| ==> r.orphans[k] == w.orphans[k];
    }
    OrphanAccounts(heap, orphans, eligible, o);
  }

  lemma OrphanAccounts(heap: seq<Candidate>, orphans: seq<Orphan>, eligible: multiset<Hash>, o: Orphan)
    requires multiset(HashesOf(heap)) + Waiting(orphans) + multiset([]) == eligible && o.dependsOn != {}
    ensures multiset(HashesOf(heap)) + Waiting(orphans + [o]) + multiset([]) == eligible + multiset{o.candidate.tx.hash}
  {
    hide HashesOf;
    assert (orphans + [o])[..|orphans|] == orphans;
  }

  /** The place of a transaction in the queue, from what the loop over its inputs found. */
  method Rank(rules: Rules, tx: Tx, nTotalIn: int, dPriority: real) returns (c: Candidate)
    ensures c == Candidate(rules.computePriority(tx, dPriority) + rules.priorityDelta(tx.hash),
                           FeeRate(nTotalIn + rules.feeDelta(tx.hash) - SumOut(tx.vout), rules.size(tx)), tx)
  {
    var nTxSize := rules.size(tx);
    var p := rules.computePriority(tx, dPriority) + rules.priorityDelta(tx.hash);
    var total := nTotalIn + rules.feeDelta(tx.hash);
    var out := ValueOut(tx);
    c := Candidate(p, FeeRate(total - out, nTxSize), tx);
  }

  lemma RankedNone(rules: Rules, s0: Snapshot, pool: Pool)
    ensures AllRanked(rules, s0, pool, [], [])
  {
  }

  lemma RankedDef(rules: Rules, s0: Snapshot, pool: Pool, tx: Tx, nTotalIn: int, dPriority: real)
    requires AllConnect(s0, pool, tx.vin)
    requires nTotalIn == TotalIn(s0, pool, tx.vin) && dPriority == Age(rules.height, s0, pool, tx.vin)
    ensures Ranked(rules, s0, pool, tx) ==
      Candidate(rules.computePriority(tx, dPriority) + rules.priorityDelta(tx.hash),
                FeeRate(nTotalIn + rules.feeDelta(tx.hash) - SumOut(tx.vout), rules.size(tx)), tx)
  {
    hide TotalIn, Age, SumOut, FeeRate;
  }

  lemma RankedMore(rules: Rules, s0: Snapshot, pool: Pool, heap: seq<Candidate>, orphans: seq<Orphan>, c: Candidate, d: set<Hash>)
    requires AllRanked(rules, s0, pool, heap, orphans) && IsRanked(rules, s0, pool, c)
    ensures AllRanked(rules, s0, pool, heap + [c], orphans) && AllRanked(rules, s0, pool, heap, orphans + [Orphan(c, d)])
  {
    hide IsRanked;
  }

  lemma EligibleStep(rules: Rules, s0: Snapshot, pool: Pool, order: seq<Hash>, k: nat)
    requires k < |order| && order[k] in pool
    ensures var was := Eligible(rules, s0, pool, order, k);
            Eligible(rules, s0, pool, order, k + 1) == if IsEligible(rules, s0, pool, pool[order[k]]) then was + multiset{order[k]} else was
    ensures Stale(rules, s0, pool, order, k + 1) ==
      Stale(rules, s0, pool, order, k) + if IsCandidate(rules, pool[order[k]]) then StaleOf(s0, pool, pool[order[k]]) else {}
  {
  }

  lemma NotStale(s0: Snapshot, pool: Pool, tx: Tx)
    requires !IsDropped(s0, pool, tx)
    ensures StaleOf(s0, pool, tx) == {}
  {
  }

  /**
   * The first half of `CreateNewBlock`: every eligible transaction is queued or has to wait for its parents; `stale` are
   * the parents under which an entry that is gone stays noted.
   */
  method Collect(rules: Rules, view: CoinsViewStack, pool: Pool, order: seq<Hash>, ghost s0: Snapshot)
    returns (heap: seq<Candidate>, orphans: seq<Orphan>, deps: Dependers, stale: set<Hash>)
    requires Ready(view, s0) && PoolOk(rules, s0, pool, order)
    modifies view`caches
    ensures Ready(view, s0) && AllRanked(rules, s0, pool, heap, orphans)
    ensures stale == Stale(rules, s0, pool, order, |order|)
    ensures Good(rules, s0, deps, Start(rules, s0, heap, orphans), Eligible(rules, s0, pool, order, |order|))
  {
    hide Ready, Good, Missing, PoolOk, Extends, Waiters, AllConnect, Age, TotalIn, SumOut, FeeRate, DistinctInputs, AllRanked, Ranked;
    hide Eligible, Stale, StaleOf, IsDropped, Reached, Connects;
    heap, orphans, deps, stale := [], [], map[], {};
    StartGood(rules, s0);
    assert AllRanked(rules, s0, pool, [], []) by { RankedNone(rules, s0, pool); }
    assert Eligible(rules, s0, pool, order, 0) == multiset{} && Stale(rules, s0, pool, order, 0) == {} by {
      NoneEligible(rules, s0, pool, order);
    }
    var k := 0;
    while k < |order|
      invariant 0 <= k <= |order| && Ready(view, s0) && AllRanked(rules, s0, pool, heap, orphans)
      invariant stale == Stale(rules, s0, pool, order, k)
      invariant Good(rules, s0, deps, Start(rules, s0, heap, orphans), Eligible(rules, s0, pool, order, k))
    {
      PoolTx(rules, s0, pool, order, order[k]);
      EligibleStep(rules, s0, pool, order, k);
      var tx := pool[order[k]];
      if !tx.coinBase && rules.isFinal(tx) {
        ghost var deps0, eligible := deps, Eligible(rules, s0, pool, order, k);
        var dropped, dependsOn, deps', nTotalIn, dPriority := Inspect(rules, view, tx, pool, |orphans|, deps, s0);
        deps := deps';
        if dropped {
          stale := stale + dependsOn;
        } else {
          NotStale(s0, pool, tx);
          var c := Rank(rules, tx, nTotalIn, dPriority);
          assert IsRanked(rules, s0, pool, c) by { RankedDef(rules, s0, pool, tx, nTotalIn, dPriority); }
          RankedMore(rules, s0, pool, heap, orphans, c, dependsOn);
          if dependsOn != {} {
            AddOrphan(rules, s0, deps0, deps, heap, orphans, Orphan(c, dependsOn), eligible);
            orphans := orphans + [Orphan(c, dependsOn)];
          } else {
            AddReady(rules, s0, deps0, deps, heap, orphans, c, eligible);
            heap := heap + [c];
          }
        }
      }
      k := k + 1;
    }
  }

  lemma NoneEligible(rules: Rules, s0: Snapshot, pool: Pool, order: seq<Hash>)
    ensures Eligible(rules, s0, pool, order, 0) == multiset{} && Stale(rules, s0, pool, order, 0) == {}
  {
  }

  // ---------------------------------------------------------------- everything together

  /** The settings as they are used: between 1000 bytes and 1000 bytes less than the largest block. */
  function Clamped(rules: Rules): Rules {
    var maxSize := Max(1000, Min(MAX_BLOCK_SIZE - 1000, rules.maxSize));
    rules.(maxSize := maxSize, prioritySize := Min(maxSize, rules.prioritySize), minSize := Min(maxSize, rules.minSize))
  }

  /** Every eligible transaction of the pool is in the block, or still waits for a parent that is not, or failed a test. */
  ghost predicate Complete(rules: Rules, s0: Snapshot, pool: Pool, order: seq<Hash>, deps: Dependers, works: seq<Work>)
    requires works != []
  {
    forall h :: h in order && h in pool && IsEligible(rules, s0, pool, pool[h]) ==> Explained(rules, s0, pool, deps, works, h)
  }

  lemma RunComplete(rules: Rules, s0: Snapshot, pool: Pool, order: seq<Hash>, deps: Dependers, works: seq<Work>)
    requires PoolOk(rules, s0, pool, order) && IsRun(rules, deps, works) && works[|works| - 1].heap == []
    requires Good(rules, s0, deps, works[0], Eligible(rules, s0, pool, order, |order|))
    requires works[0].taken == [] && works[0].block == [] && AllRanked(rules, s0, pool, works[0].heap, works[0].orphans)
    ensures Complete(rules, s0, pool, order, deps, works)
  {
    hide Pass, Good, AllRanked, IsEligible, Explained, Eligible;
    EligibleOnce(rules, s0, pool, order, |order|);
    assert order[..|order|] == order;
    forall h | h in order && h in pool && IsEligible(rules, s0, pool, pool[h]) ensures Explained(rules, s0, pool, deps, works, h) {
      EveryoneExplained(rules, s0, pool, deps, works, Eligible(rules, s0, pool, order, |order|), h);
    }
  }

  /**
   * `CreateNewBlock`, up to the coinbase transaction and the header. `trace` is the run of the selection loop that
   * leads to the block. The outcome is undefined exactly if the block has a parent of a transaction that was dropped
   * after it had been noted as waiting; the returned values are then those of the moment this happens. The pool tells
   * beforehand: it cannot come to that if no such parent is eligible, and must if all front-runners are such parents.
   */
  method CreateNewBlock(settings: Rules, view: CoinsViewStack, pool: Pool, order: seq<Hash>, ghost s0: Snapshot)
    returns (defined: bool, vtx: seq<Tx>, vTxFees: seq<int>, vTxSigOps: seq<int>, nBlockSize: int,
             ghost deps: Dependers, ghost trace: seq<Work>)
    requires Ready(view, s0) && PoolOk(settings, s0, pool, order)
    modifies view
    ensures defined <==> BlockHashes(vtx) !! Stale(settings, s0, pool, order, |order|)
    ensures NoneStale(settings, s0, pool, order) ==> defined
    ensures FrontsAreStale(Clamped(settings), s0, pool, order) ==> !defined
    ensures IsRun(Clamped(settings), deps, trace) && BestFirst(trace)
    ensures var w := trace[0];
            && w == Start(Clamped(settings), s0, w.heap, w.orphans) && (w.byFee <==> settings.prioritySize <= 0)
            && w.coins == s0 && w.block == [] && w.taken == [] && w.size == 1000 && w.totalSigOps == 100 && w.totalFees == 0
            && AllRanked(Clamped(settings), s0, pool, w.heap, w.orphans)
            && Good(Clamped(settings), s0, deps, w, Eligible(settings, s0, pool, order, |order|))
    ensures var w := trace[|trace| - 1];
            && Ready(view, w.coins) && Good(Clamped(settings), s0, deps, w, Eligible(settings, s0, pool, order, |order|))
            && vtx == w.block && vTxFees == [-Sum(w.fees)] + w.fees && Sum(vTxFees) == 0 && vTxSigOps == w.sigOps
    ensures defined ==> trace[|trace| - 1].heap == [] && Complete(Clamped(settings), s0, pool, order, deps, trace)
    ensures vtx != [] ==> nBlockSize == 1000 + SumSizes(settings, vtx) < 4999000
    ensures 100 + Sum(vTxSigOps) < 100000
  {
    hide Ready, PoolOk, Replays, ExactDependencies, QueueReady, DependersOk, Accounted, Sum, SumSizes, Pass, AllRanked, Complete;
    hide Eligible, Stale, NoneStale, FrontsAreStale, BlockHashes;
    var rules := Clamped(settings);
    SameEligible(settings, rules, pool, order, |order|, s0);
    FreshCache(view, s0);
    var heap, orphans, dependers, stale := Collect(rules, view, pool, order, s0);
    var a := new Assembler(rules, view, heap, orphans, dependers, stale, s0);
    defined, trace := a.Assemble(s0, Eligible(rules, s0, pool, order, |order|));
    deps := dependers;
    FeesCancel(rules, a.Now());
    vtx, vTxFees, vTxSigOps, nBlockSize := a.vtx, [-a.nFees] + a.vTxFees, a.vTxSigOps, a.nBlockSize;
    SameSizes(settings, rules, vtx);
    RunBestFirst(rules, deps, trace);
    if defined {
      RunComplete(rules, s0, pool, order, deps, trace);
      if FrontsAreStale(rules, s0, pool, order) {
        FrontsUndefined(rules, s0, pool, order, deps, trace);
      }
    } else if NoneStale(settings, s0, pool, order) {
      NoneStaleDefined(settings, rules, s0, pool, order, deps, a.Now());
    }
  }

  /** `CCoinsViewCache view(pcoinsTip)`. */
  method FreshCache(view: CoinsViewStack, ghost s0: Snapshot)
    requires Ready(view, s0)
    modifies view`caches
    ensures Ready(view, s0)
  {
    ghost var a := view.caches;
    ViewOfPush(view.db, a, map[]);
    view.Push();
    assert Shows(view.db, view.caches, s0);
  }

  lemma {:induction false} SameSizes(a: Rules, b: Rules, block: seq<Tx>)
    requires a.size == b.size
    ensures SumSizes(a, block) == SumSizes(b, block)
    decreases |block|
  {
    if block != [] {
      SameSizes(a, b, block[..|block| - 1]);
    }
  }

  lemma {:induction false} SameEligible(a: Rules, b: Rules, pool: Pool, order: seq<Hash>, k: nat, s0: Snapshot)
    requires a.isFinal == b.isFinal && k <= |order|
    ensures Eligible(a, s0, pool, order, k) == Eligible(b, s0, pool, order, k)
    ensures Stale(a, s0, pool, order, k) == Stale(b, s0, pool, order, k)
    ensures PoolOk(a, s0, pool, order) ==> PoolOk(b, s0, pool, order)
  {
    hide IsDropped, StaleOf, Connects, Reached;
    if k > 0 {
      SameEligible(a, b, pool, order, k - 1, s0);
    }
    assert forall tx: Tx :: IsCandidate(a, tx) == IsCandidate(b, tx);
    assert forall tx: Tx :: IsEligible(a, s0, pool, tx) == IsEligible(b, s0, pool, tx);
  }
}
