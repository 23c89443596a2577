/**
 * The tests and the amounts of block assembly written out: which candidate gets in, when the order turns to fees, what a
 * transaction pays and how it is ranked (`CreateNewBlock`, src/miner.cpp; src/txmempool.h, src/main.h).
 */
module BlockRules {
  import opened Common
  import opened Coins
  import opened CoinsCache
  import opened BlockUndo
  import opened BlockAssembly
  import opened BlockPool
  import opened BlockSelection
  import opened BlockAssembler

  // ---------------------------------------------------------------- sums

  /** f(0) + ... + f(n - 1). */
  function AddUp(n: nat, f: int -> int): int {
    if n == 0 then 0 else AddUp(n - 1, f) + f(n - 1)
  }

  function AddUpReal(n: nat, f: int -> real): real {
    if n == 0 then 0.0 else AddUpReal(n - 1, f) + f(n - 1)
  }

  lemma {:induction false} AddUpSame(n: nat, f: int -> int, g: int -> int)
    requires forall i :: 0 <= i < n ==> f(i) == g(i)
    ensures AddUp(n, f) == AddUp(n, g)
  {
    if n > 0 {
      AddUpSame(n - 1, f, g);
    }
  }

  lemma {:induction false} AddUpRealSame(n: nat, f: int -> real, g: int -> real)
    requires forall i :: 0 <= i < n ==> f(i) == g(i)
    ensures AddUpReal(n, f) == AddUpReal(n, g)
  {
    if n > 0 {
      AddUpRealSame(n - 1, f, g);
    }
  }

  /** The value of the output that input `i` spends, in the chain. */
  function ChainValue(s: Snapshot, vin: seq<OutPoint>, i: int): int {
    if 0 <= i < |vin| && vin[i].hash in s && vin[i].n < |s[vin[i].hash].vout| then s[vin[i].hash].vout[vin[i].n].value else 0
  }

  /** The same, or in the pool if the chain does not have the transaction. */
  function PoolValue(s: Snapshot, pool: Pool, vin: seq<OutPoint>, i: int): int {
    if 0 <= i < |vin| && vin[i].hash !in s && vin[i].hash in pool && vin[i].n < |pool[vin[i].hash].vout|
    then pool[vin[i].hash].vout[vin[i].n].value else ChainValue(s, vin, i)
  }

  /** How deep that output is in the chain. */
  function Depth(height: int, s: Snapshot, vin: seq<OutPoint>, i: int): int {
    if 0 <= i < |vin| && vin[i].hash in s then height - s[vin[i].hash].height else 0
  }

  function OutValue(vout: seq<TxOut>, i: int): int {
    if 0 <= i < |vout| then vout[i].value else 0
  }

  lemma {:induction false} SumOutIs(vout: seq<TxOut>)
    ensures SumOut(vout) == AddUp(|vout|, i => OutValue(vout, i))
    decreases |vout|
  {
    if vout != [] {
      var n := |vout| - 1;
      SumOutIs(vout[..n]);
      AddUpSame(n, i => OutValue(vout[..n], i), i => OutValue(vout, i));
    }
  }

  lemma {:induction false} SumInIs(s: Snapshot, vin: seq<OutPoint>)
    requires forall i :: 0 <= i < |vin| ==> Spendable(s, vin[i])
    ensures SumIn(s, vin) == AddUp(|vin|, i => ChainValue(s, vin, i))
    decreases |vin|
  {
    if vin != [] {
      var n := |vin| - 1;
      SumInIs(s, vin[..n]);
      assert Spendable(s, vin[n]);
      AddUpSame(n, i => ChainValue(s, vin[..n], i), i => ChainValue(s, vin, i));
    }
  }

  /** The fee is what the spent outputs are worth, less what the new ones are worth. */
  lemma FeeExactly(s: Snapshot, tx: Tx)
    requires HaveInputs(s, tx)
    ensures FeeOf(s, tx) == AddUp(|tx.vin|, i => ChainValue(s, tx.vin, i)) - AddUp(|tx.vout|, i => OutValue(tx.vout, i))
  {
    SumInIs(s, tx.vin);
    SumOutIs(tx.vout);
  }

  lemma {:induction false} TotalInIs(s0: Snapshot, pool: Pool, vin: seq<OutPoint>)
    requires AllConnect(s0, pool, vin)
    ensures TotalIn(s0, pool, vin) == AddUp(|vin|, i => PoolValue(s0, pool, vin, i))
    decreases |vin|
  {
    if vin != [] {
      var n := |vin| - 1;
      TotalInIs(s0, pool, vin[..n]);
      assert Connects(s0, pool, vin[n]);
      AddUpSame(n, i => PoolValue(s0, pool, vin[..n], i), i => PoolValue(s0, pool, vin, i));
    }
  }

  lemma {:induction false} AgeIs(height: int, s0: Snapshot, pool: Pool, vin: seq<OutPoint>)
    requires AllConnect(s0, pool, vin)
    ensures Age(height, s0, pool, vin) == AddUpReal(|vin|, i => (ChainValue(s0, vin, i) * Depth(height, s0, vin, i)) as real)
    decreases |vin|
  {
    if vin != [] {
      var n := |vin| - 1;
      AgeIs(height, s0, pool, vin[..n]);
      assert Connects(s0, pool, vin[n]);
      AddUpRealSame(n, i => (ChainValue(s0, vin[..n], i) * Depth(height, s0, vin[..n], i)) as real,
                    i => (ChainValue(s0, vin, i) * Depth(height, s0, vin, i)) as real);
    }
  }

  /**
   * The rank: the priority computed from the values spent in the chain times their depth, and the fee per thousand bytes;
   * both with the adjustments made by hand.
   */
  lemma RankExactly(rules: Rules, s0: Snapshot, pool: Pool, tx: Tx)
    requires AllConnect(s0, pool, tx.vin)
    ensures var r := Ranked(rules, s0, pool, tx);
            var age := AddUpReal(|tx.vin|, i => (ChainValue(s0, tx.vin, i) * Depth(rules.height, s0, tx.vin, i)) as real);
            var fee := AddUp(|tx.vin|, i => PoolValue(s0, pool, tx.vin, i)) - AddUp(|tx.vout|, i => OutValue(tx.vout, i));
            && r.tx == tx && r.priority == rules.computePriority(tx, age) + rules.priorityDelta(tx.hash)
            && r.feeRate == FeeRate(fee + rules.feeDelta(tx.hash), rules.size(tx))
  {
    hide FeeRate, AddUp, AddUpReal;
    AgeIs(rules.height, s0, pool, tx.vin);
    TotalInIs(s0, pool, tx.vin);
    SumOutIs(tx.vout);
  }

  // ---------------------------------------------------------------- the tests

  /** Room for the candidate, and a fee that is due once the order is by fee and the block is as large as it has to be. */
  predicate HasRoom(rules: Rules, w: Work, c: Candidate) {
    && w.size + rules.size(c.tx) < rules.maxSize
    && w.totalSigOps + rules.legacySigOps(c.tx) < 100000
    && (|| !w.byFee || w.size + rules.size(c.tx) < rules.minSize || c.feeRate >= rules.minRelayFee
        || rules.priorityDelta(c.tx.hash) > 0.0 || rules.feeDelta(c.tx.hash) > 0)
  }

  /**
   * A candidate gets into the block exactly if there is room for it, its inputs are unspent, all its signature operations
   * fit, and its inputs check; once one is considered for which there is room, the order turns to fees if the part for
   * high priorities is full or its own is no more than 57600.
   */
  lemma PassExactly(rules: Rules, deps: Dependers, w: Work, i: nat)
    requires i < |w.heap| && Proper(w.heap[i].tx)
    ensures var r, c := Considered(rules, deps, w, i), w.heap[i];
            var unspent := forall k :: 0 <= k < |c.tx.vin| ==> c.tx.vin[k].hash in w.coins && Has(Some(w.coins[c.tx.vin[k].hash]), c.tx.vin[k].n);
            && (r.byFee <==> w.byFee || (HasRoom(rules, w, c) && (w.size + rules.size(c.tx) >= rules.prioritySize || c.priority <= 57600.0)))
            && (if HasRoom(rules, w, c) && unspent &&
                   (var coins := seq(|c.tx.vin|, k requires 0 <= k < |c.tx.vin| => w.coins[c.tx.vin[k].hash]);
                    && w.totalSigOps + rules.legacySigOps(c.tx) + rules.p2shSigOps(c.tx, coins) < 100000
                    && rules.checkInputs(c.tx, coins))
                then r.block == w.block + [c.tx] else r.block == w.block)
  {
    hide Considered, Has;
    var c := w.heap[i];
    ConsideredEffect(rules, deps, w, i);
    UnspentExactly(w.coins, c.tx);
    TurnsToFee(rules, deps, w, i);
  }

  lemma UnspentExactly(s: Snapshot, tx: Tx)
    ensures HaveInputs(s, tx) <==> forall k :: 0 <= k < |tx.vin| ==> tx.vin[k].hash in s && Has(Some(s[tx.vin[k].hash]), tx.vin[k].n)
    ensures HaveInputs(s, tx) ==> InputCoins(s, tx) == seq(|tx.vin|, k requires 0 <= k < |tx.vin| => s[tx.vin[k].hash])
  {
    if HaveInputs(s, tx) {
      forall k | 0 <= k < |tx.vin| ensures tx.vin[k].hash in s && Has(Some(s[tx.vin[k].hash]), tx.vin[k].n) {
        assert Spendable(s, tx.vin[k]);
      }
    }
  }

  lemma TurnsToFee(rules: Rules, deps: Dependers, w: Work, i: nat)
    requires i < |w.heap| && Proper(w.heap[i].tx)
    ensures Considered(rules, deps, w, i).byFee <==> w.byFee || (Admissible(rules, w, w.heap[i]) && NowByFee(rules, w, w.heap[i]))
  {
    hide Admissible, Acceptable, Release, HashesOf, Waiting, Told, FromOrphans, ConnectTx, Connectable, SigOpsOf, FeeOf;
    var c := w.heap[i];
    if Passes(rules, w, c) {
      AcceptedLater(rules, w, w, c);
      var ks := Waiters(deps, c.tx.hash);
      var w2 := w.(heap := Removed(w.heap, i), taken := w.taken + [c.tx.hash], byFee := NowByFee(rules, w, c));
      AcceptedLater(rules, w, w2, c);
      AcceptableInputs(rules, w2, c.tx);
      ReleaseEffect(Included(rules, w2, c.tx), ks, |ks|, c.tx.hash);
    }
  }

  /**
   * What is considered at all: of the transactions of the pool, each once, those that are final, are no coinbase, and have
   * every input's transaction in the chain's unspent set or in the pool.
   */
  lemma ConsideredAtAll(rules: Rules, s0: Snapshot, pool: Pool, order: seq<Hash>, hash: Hash)
    requires PoolOk(rules, s0, pool, order)
    ensures Eligible(rules, s0, pool, order, |order|)[hash] ==
      if && hash in order && !pool[hash].coinBase && rules.isFinal(pool[hash])
         && forall i :: 0 <= i < |pool[hash].vin| ==> pool[hash].vin[i].hash in s0 || pool[hash].vin[i].hash in pool
      then 1 else 0
  {
    hide Eligible;
    EligibleOnce(rules, s0, pool, order, |order|);
    assert order[..|order|] == order;
    if hash in order {
      DroppedExactly(s0, pool, pool[hash]);
    }
  }

  lemma DroppedExactly(s0: Snapshot, pool: Pool, tx: Tx)
    ensures IsDropped(s0, pool, tx) <==> !forall i :: 0 <= i < |tx.vin| ==> tx.vin[i].hash in s0 || tx.vin[i].hash in pool
  {
    if i :| 0 <= i < |tx.vin| && !(tx.vin[i].hash in s0 || tx.vin[i].hash in pool) {
      assert Nowhere(s0, pool, tx.vin[i]);
    }
  }

  /** The settings as they are used: sizes between 1000 and 4999000 bytes, and the parts no larger than the whole. */
  lemma ClampedExactly(rules: Rules)
    ensures var r := Clamped(rules);
            && r == rules.(maxSize := r.maxSize, prioritySize := r.prioritySize, minSize := r.minSize)
            && 1000 <= r.maxSize <= 4999000
            && (1000 <= rules.maxSize <= 4999000 ==> r.maxSize == rules.maxSize)
            && (rules.maxSize < 1000 ==> r.maxSize == 1000) && (rules.maxSize > 4999000 ==> r.maxSize == 4999000)
            && r.prioritySize == (if rules.prioritySize < r.maxSize then rules.prioritySize else r.maxSize)
            && r.minSize == (if rules.minSize < r.maxSize then rules.minSize else r.maxSize)
  {
  }
}
