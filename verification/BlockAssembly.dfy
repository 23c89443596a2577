/**
 * Assembling a block from the memory pool: a priority queue, transactions that wait for their parents,
 * and the limits on size and signature operations (`CreateNewBlock`, src/miner.cpp).
 */
module BlockAssembly {
  import opened Common
  import opened Coins
  import opened CoinsCache
  import opened BlockUndo

  const MAX_BLOCK_SIGOPS: int := MAX_BLOCK_SIZE / 50
  const COIN: int := 100000

  /** What the rest of the program answers about transactions, and the settings. */
  datatype Rules = Rules(
    height: int,
    isFinal: Tx -> bool,
    size: Tx -> nat,
    legacySigOps: Tx -> nat,
    p2shSigOps: (Tx, seq<Coins>) -> nat,
    checkInputs: (Tx, seq<Coins>) -> bool,
    computePriority: (Tx, real) -> real,
    priorityDelta: Hash -> real,
    feeDelta: Hash -> int,
    minRelayFee: int,
    maxSize: int,
    prioritySize: int,
    minSize: int)

  datatype Candidate = Candidate(priority: real, feeRate: int, tx: Tx)

  /** `COrphan`: a transaction waiting for others to get into the block. */
  datatype Orphan = Orphan(candidate: Candidate, dependsOn: set<Hash>)

  /** The state of the selection loop; `taken` lists the transactions taken off the queue so far. */
  datatype Work = Work(coins: Snapshot, heap: seq<Candidate>, orphans: seq<Orphan>, byFee: bool, taken: seq<Hash>,
                       block: seq<Tx>, fees: seq<int>, sigOps: seq<int>, size: int, totalSigOps: int, totalFees: int)

  /** For every transaction, the orphans that wait for it, once per input. */
  type Dependers = map<Hash, seq<nat>>

  // ---------------------------------------------------------------- one step

  /** `TxPriorityCompare`. */
  predicate Less(byFee: bool, a: Candidate, b: Candidate) {
    if byFee then
      if a.feeRate == b.feeRate then a.priority < b.priority else a.feeRate < b.feeRate
    else
      if a.priority == b.priority then a.feeRate < b.feeRate else a.priority < b.priority
  }

  /** The element a heap has in front. */
  predicate Highest(w: Work, i: nat) {
    i < |w.heap| && forall j :: 0 <= j < |w.heap| ==> !Less(w.byFee, w.heap[i], w.heap[j])
  }

  predicate AllowFree(priority: real) {
    priority > (COIN * 144 / 250) as real
  }

  function InputCoins(s: Snapshot, tx: Tx): seq<Coins>
    requires HaveInputs(s, tx)
  {
    seq(|tx.vin|, i requires 0 <= i < |tx.vin| => s[tx.vin[i].hash])
  }

  predicate HaveInputs(s: Snapshot, tx: Tx) {
    forall i :: 0 <= i < |tx.vin| ==> Spendable(s, tx.vin[i])
  }

  function SumIn(s: Snapshot, vin: seq<OutPoint>): int
    requires forall i :: 0 <= i < |vin| ==> Spendable(s, vin[i])
  {
    if vin == [] then 0
    else
      var last := vin[|vin| - 1];
      assert Spendable(s, last);
      SumIn(s, vin[..|vin| - 1]) + s[last.hash].vout[last.n].value
  }

  function SumOut(vout: seq<TxOut>): int {
    if vout == [] then 0 else SumOut(vout[..|vout| - 1]) + vout[|vout| - 1].value
  }

  /** The fee a transaction pays when it is connected to `s`. */
  function FeeOf(s: Snapshot, tx: Tx): int
    requires HaveInputs(s, tx)
  {
    SumIn(s, tx.vin) - SumOut(tx.vout)
  }

  function Removed<T>(s: seq<T>, i: nat): seq<T>
    requires i < |s|
  {
    s[..i] + s[i + 1..]
  }

  /** Does a candidate pass the tests made before its inputs are looked at? */
  predicate Admissible(rules: Rules, w: Work, c: Candidate) {
    var newSize := w.size + rules.size(c.tx);
    && newSize < rules.maxSize
    && w.totalSigOps + rules.legacySigOps(c.tx) < MAX_BLOCK_SIGOPS
    && !(w.byFee && rules.priorityDelta(c.tx.hash) <= 0.0 && rules.feeDelta(c.tx.hash) <= 0
         && c.feeRate < rules.minRelayFee && newSize >= rules.minSize)
  }

  /** From here on, is the queue ordered by fee? */
  predicate NowByFee(rules: Rules, w: Work, c: Candidate) {
    w.byFee || w.size + rules.size(c.tx) >= rules.prioritySize || !AllowFree(c.priority)
  }

  function SigOpsOf(rules: Rules, s: Snapshot, tx: Tx): nat
    requires HaveInputs(s, tx)
  {
    rules.legacySigOps(tx) + rules.p2shSigOps(tx, InputCoins(s, tx))
  }

  /** Does it pass the tests made with its inputs at hand? */
  predicate Acceptable(rules: Rules, w: Work, tx: Tx) {
    && HaveInputs(w.coins, tx)
    && w.totalSigOps + SigOpsOf(rules, w.coins, tx) < MAX_BLOCK_SIGOPS
    && rules.checkInputs(tx, InputCoins(w.coins, tx))
  }

  /** One depender hears that `hash` is in the block; it is queued when that was the last one missing. */
  function ReleaseOne(w: Work, k: nat, hash: Hash): Work {
    if k < |w.orphans| && w.orphans[k].dependsOn != {} then
      var o := w.orphans[k].(dependsOn := w.orphans[k].dependsOn - {hash});
      w.(orphans := w.orphans[k := o], heap := if o.dependsOn == {} then w.heap + [o.candidate] else w.heap)
    else w
  }

  /** The first `n` dependers. */
  function Release(w: Work, ks: seq<nat>, n: nat, hash: Hash): Work
    requires n <= |ks|
  {
    if n == 0 then w else ReleaseOne(Release(w, ks, n - 1, hash), ks[n - 1], hash)
  }

  /** Put a transaction into the block. */
  function Included(rules: Rules, w: Work, tx: Tx): Work
    requires HaveInputs(w.coins, tx) && Connectable(w.coins, tx)
  {
    var ops, fee := SigOpsOf(rules, w.coins, tx), FeeOf(w.coins, tx);
    w.(coins := ConnectTx(w.coins, tx, rules.height).0, block := w.block + [tx], fees := w.fees + [fee],
       sigOps := w.sigOps + [ops], size := w.size + rules.size(tx), totalSigOps := w.totalSigOps + ops,
       totalFees := w.totalFees + fee)
  }

  function Waiters(deps: Dependers, hash: Hash): seq<nat> {
    if hash in deps then deps[hash] else []
  }

  /** One pass of the selection loop, for the candidate at place `i` of the queue. */
  function Considered(rules: Rules, deps: Dependers, w: Work, i: nat): Work
    requires i < |w.heap| && !w.heap[i].tx.coinBase && DistinctInputs(w.heap[i].tx)
  {
    var c := w.heap[i];
    var w1 := w.(heap := Removed(w.heap, i), taken := w.taken + [c.tx.hash]);
    if !Admissible(rules, w, c) then w1
    else
      var w2 := w1.(byFee := NowByFee(rules, w, c));
      if !Acceptable(rules, w, c.tx) then w2
      else
        DistinctSpendable(w.coins, c.tx.vin);
        var ks := Waiters(deps, c.tx.hash);
        Release(Included(rules, w2, c.tx), ks, |ks|, c.tx.hash)
  }

  // ---------------------------------------------------------------- inputs

  /** No transaction spends an output twice (`CheckTransaction` rejects those). */
  predicate DistinctInputs(tx: Tx) {
    forall i, j :: 0 <= i < j < |tx.vin| ==> tx.vin[i] != tx.vin[j]
  }

  lemma SpendOutKeeps(s: Snapshot, out: OutPoint, other: OutPoint)
    requires Spendable(s, out) && Spendable(s, other) && out != other
    ensures Spendable(SpendOut(s, out).0, other)
  {
    var (c, _) := Spend(s[out.hash], out.n).value;
    if out.hash == other.hash {
      assert c.IsAvailable(other.n);
      assert c.Cleanup().IsAvailable(other.n);
    }
  }

  /** Distinct unspent inputs can be spent one after the other. */
  lemma {:induction false} DistinctSpendable(s: Snapshot, vin: seq<OutPoint>)
    requires forall i :: 0 <= i < |vin| ==> Spendable(s, vin[i])
    requires forall i, j :: 0 <= i < j < |vin| ==> vin[i] != vin[j]
    ensures AllSpendable(s, vin)
    decreases |vin|
  {
    hide SpendOut, Spendable;
    if vin != [] {
      forall i | 0 <= i < |vin[1..]| ensures Spendable(SpendOut(s, vin[0]).0, vin[1..][i]) {
        SpendOutKeeps(s, vin[0], vin[i + 1]);
      }
      DistinctSpendable(SpendOut(s, vin[0]).0, vin[1..]);
    }
  }

  // ---------------------------------------------------------------- releasing dependers

  function HashesOf(heap: seq<Candidate>): (r: seq<Hash>)
    ensures |r| == |heap|
  {
    seq(|heap|, i requires 0 <= i < |heap| => heap[i].tx.hash)
  }

  /** An orphan counts while it depends on something. */
  function One(o: Orphan): multiset<Hash> {
    if o.dependsOn == {} then multiset{} else multiset{o.candidate.tx.hash}
  }

  /** The orphans still waiting. */
  function Waiting(orphans: seq<Orphan>): multiset<Hash> {
    if orphans == [] then multiset{} else Waiting(orphans[..|orphans| - 1]) + One(orphans[|orphans| - 1])
  }

  lemma Exchange(a: multiset<Hash>, b: multiset<Hash>, l: multiset<Hash>, p: multiset<Hash>, q: multiset<Hash>)
    requires a + p == b + q
    ensures a + l + p == b + l + q
  {
    assert a + l + p == a + p + l;
    assert b + l + q == b + q + l;
  }

  lemma {:induction false} WaitingUpdate(orphans: seq<Orphan>, k: nat, o: Orphan)
    requires k < |orphans|
    ensures Waiting(orphans[k := o]) + One(orphans[k]) == Waiting(orphans) + One(o)
    decreases |orphans|
  {
    hide One;
    var n := |orphans| - 1;
    if k == n {
      assert orphans[k := o][..n] == orphans[..n];
      Exchange(One(o), One(orphans[k]), Waiting(orphans[..n]), One(orphans[k]), One(o));
      assert One(o) + Waiting(orphans[..n]) == Waiting(orphans[..n]) + One(o);
      assert One(orphans[k]) + Waiting(orphans[..n]) == Waiting(orphans[..n]) + One(orphans[k]);
    } else {
      assert orphans[k := o][..n] == orphans[..n][k := o];
      WaitingUpdate(orphans[..n], k, o);
      Exchange(Waiting(orphans[..n][k := o]), Waiting(orphans[..n]), One(orphans[n]), One(orphans[k]), One(o));
    }
  }

  lemma Cancel(a: multiset<Hash>, b: multiset<Hash>, c: multiset<Hash>)
    requires a + c == b + c
    ensures a == b
  {
    assert a == a + c - c;
    assert b == b + c - c;
  }

  lemma HashesSnoc(heap: seq<Candidate>, c: Candidate)
    ensures multiset(HashesOf(heap + [c])) == multiset(HashesOf(heap)) + multiset{c.tx.hash}
  {
    assert HashesOf(heap + [c]) == HashesOf(heap) + [c.tx.hash];
  }

  /** Nothing is lost or doubled: what leaves the orphans joins the queue. */
  lemma ReleaseOneAccounts(w: Work, k: nat, hash: Hash)
    ensures var r := ReleaseOne(w, k, hash);
            multiset(HashesOf(r.heap)) + Waiting(r.orphans) == multiset(HashesOf(w.heap)) + Waiting(w.orphans)
  {
    hide Waiting, HashesOf;
    if k < |w.orphans| && w.orphans[k].dependsOn != {} {
      var o := w.orphans[k].(dependsOn := w.orphans[k].dependsOn - {hash});
      WaitingUpdate(w.orphans, k, o);
      var h := multiset{o.candidate.tx.hash};
      if o.dependsOn == {} {
        HashesSnoc(w.heap, o.candidate);
        assert Waiting(w.orphans[k := o]) + h == Waiting(w.orphans);
      } else {
        Cancel(Waiting(w.orphans[k := o]), Waiting(w.orphans), h);
      }
    }
  }

  /** The candidate of an orphan that waits for nothing any more. */
  predicate IsReleased(orphans: seq<Orphan>, c: Candidate) {
    exists k :: 0 <= k < |orphans| && orphans[k] == Orphan(c, {})
  }

  /** What was queued since `w` are released orphans. */
  predicate FromOrphans(r: Work, w: Work) {
    w.heap <= r.heap && forall i :: |w.heap| <= i < |r.heap| ==> IsReleased(r.orphans, r.heap[i])
  }

  /** Dependers that were told have the hash removed; the others are as they were. */
  ghost predicate Told(r: Work, w: Work, ks: seq<nat>, n: nat, hash: Hash)
    requires n <= |ks|
  {
    && |r.orphans| == |w.orphans|
    && forall k :: 0 <= k < |w.orphans| ==>
         && r.orphans[k].candidate == w.orphans[k].candidate
         && r.orphans[k].dependsOn == if k in ks[..n] then w.orphans[k].dependsOn - {hash} else w.orphans[k].dependsOn
  }

  lemma ToldMore(q: Work, w: Work, ks: seq<nat>, n: nat, hash: Hash)
    requires n < |ks| && Told(q, w, ks, n, hash)
    ensures Told(ReleaseOne(q, ks[n], hash), w, ks, n + 1, hash)
  {
    assert ks[..n + 1] == ks[..n] + [ks[n]];
    var r := ReleaseOne(q, ks[n], hash);
    assert |r.orphans| == |q.orphans|;
    forall k | 0 <= k < |w.orphans|
      ensures r.orphans[k].candidate == w.orphans[k].candidate
      ensures r.orphans[k].dependsOn == if k in ks[..n + 1] then w.orphans[k].dependsOn - {hash} else w.orphans[k].dependsOn
    {
      assert k in ks[..n + 1] <==> k in ks[..n] || k == ks[n];
      var d := w.orphans[k].dependsOn;
      assert d - {hash} - {hash} == d - {hash} && (d == {} ==> d - {hash} == d);
    }
  }

  lemma FromOrphansMore(q: Work, w: Work, k: nat, hash: Hash)
    requires FromOrphans(q, w)
    ensures FromOrphans(ReleaseOne(q, k, hash), w)
  {
    var r := ReleaseOne(q, k, hash);
    forall i | |w.heap| <= i < |r.heap| ensures IsReleased(r.orphans, r.heap[i]) {
      if i < |q.heap| {
        assert IsReleased(q.orphans, q.heap[i]);
        StillReleased(q, k, hash, q.heap[i]);
      } else {
        assert r.orphans[k] == Orphan(r.heap[i], {});
      }
    }
  }

  lemma StillReleased(q: Work, k: nat, hash: Hash, c: Candidate)
    requires IsReleased(q.orphans, c)
    ensures IsReleased(ReleaseOne(q, k, hash).orphans, c)
  {
    var j :| 0 <= j < |q.orphans| && q.orphans[j] == Orphan(c, {});
    assert ReleaseOne(q, k, hash).orphans[j] == Orphan(c, {});
  }

  lemma {:induction false} ReleaseEffect(w: Work, ks: seq<nat>, n: nat, hash: Hash)
    requires n <= |ks|
    ensures var r := Release(w, ks, n, hash);
            && r == w.(heap := r.heap, orphans := r.orphans)
            && Told(r, w, ks, n, hash) && FromOrphans(r, w)
            && multiset(HashesOf(r.heap)) + Waiting(r.orphans) == multiset(HashesOf(w.heap)) + Waiting(w.orphans)
    decreases n
  {
    hide Waiting, HashesOf;
    if n > 0 {
      ReleaseEffect(w, ks, n - 1, hash);
      var q := Release(w, ks, n - 1, hash);
      ReleaseOneAccounts(q, ks[n - 1], hash);
      ToldMore(q, w, ks, n - 1, hash);
      FromOrphansMore(q, w, ks[n - 1], hash);
    }
  }

  // ---------------------------------------------------------------- what the selection keeps

  /** The parents that are not in the chain. */
  function Missing(s0: Snapshot, tx: Tx): set<Hash> {
    MissingOf(s0, tx.vin)
  }

  function MissingOf(s0: Snapshot, vin: seq<OutPoint>): set<Hash> {
    set i | 0 <= i < |vin| && vin[i].hash !in s0 :: vin[i].hash
  }

  function BlockHashes(block: seq<Tx>): set<Hash> {
    set i | 0 <= i < |block| :: block[i].hash
  }

  function Sum(s: seq<int>): int {
    if s == [] then 0 else Sum(s[..|s| - 1]) + s[|s| - 1]
  }

  function SumSizes(rules: Rules, block: seq<Tx>): int {
    if block == [] then 0 else SumSizes(rules, block[..|block| - 1]) + rules.size(block[|block| - 1])
  }

  /** At its position in the block, a transaction finds its inputs unspent and pays what was noted. */
  predicate RightAt(rules: Rules, s0: Snapshot, w: Work, i: nat)
    requires i < |w.block| && |w.fees| == |w.block| == |w.sigOps|
  {
    && ConnectableBlock(s0, w.block[..i], rules.height)
    && var s := ConnectBlock(s0, w.block[..i], rules.height).0;
    && HaveInputs(s, w.block[i])
    && rules.checkInputs(w.block[i], InputCoins(s, w.block[i]))
    && w.fees[i] == FeeOf(s, w.block[i])
    && w.sigOps[i] == SigOpsOf(rules, s, w.block[i])
  }

  /** The block replays from the chain's coins, and the working view is where that leads. */
  ghost predicate Replays(rules: Rules, s0: Snapshot, w: Work) {
    && ConnectableBlock(s0, w.block, rules.height)
    && w.coins == ConnectBlock(s0, w.block, rules.height).0
    && |w.fees| == |w.block| == |w.sigOps|
    && forall i :: 0 <= i < |w.block| ==> RightAt(rules, s0, w, i)
  }

  /** The totals are those of the block, and within the limits. */
  ghost predicate WithinLimits(rules: Rules, w: Work) {
    && w.size == 1000 + SumSizes(rules, w.block)
    && w.totalSigOps == 100 + Sum(w.sigOps)
    && w.totalFees == Sum(w.fees)
    && (w.block != [] ==> w.size < rules.maxSize)
    && w.totalSigOps < MAX_BLOCK_SIGOPS
  }

  predicate Proper(tx: Tx) {
    !tx.coinBase && DistinctInputs(tx)
  }

  /** Every orphan waits for exactly those of its missing parents that are not in the block. */
  ghost predicate ExactDependencies(s0: Snapshot, w: Work) {
    forall k :: 0 <= k < |w.orphans| ==>
      && Proper(w.orphans[k].candidate.tx)
      && w.orphans[k].dependsOn == Missing(s0, w.orphans[k].candidate.tx) - BlockHashes(w.block)
  }

  /** What is queued waits for nothing. */
  ghost predicate QueueReady(s0: Snapshot, w: Work) {
    forall i :: 0 <= i < |w.heap| ==>
      Proper(w.heap[i].tx) && Missing(s0, w.heap[i].tx) <= BlockHashes(w.block)
  }

  /** Every transaction is queued, or taken off the queue, or waiting, exactly once; those in the block were taken. */
  ghost predicate Accounted(w: Work, eligible: multiset<Hash>) {
    && multiset(HashesOf(w.heap)) + Waiting(w.orphans) + multiset(w.taken) == eligible
    && multiset(TxHashes(w.block)) <= multiset(w.taken)
  }

  function TxHashes(block: seq<Tx>): (r: seq<Hash>)
    ensures |r| == |block|
  {
    seq(|block|, i requires 0 <= i < |block| => block[i].hash)
  }

  /** Those who wait for a transaction are told about it. */
  ghost predicate DependersOk(s0: Snapshot, deps: Dependers, orphans: seq<Orphan>) {
    forall k: nat, x: Hash :: k < |orphans| && x in Missing(s0, orphans[k].candidate.tx) ==> k in Waiters(deps, x)
  }

  ghost predicate Good(rules: Rules, s0: Snapshot, deps: Dependers, w: Work, eligible: multiset<Hash>) {
    && Replays(rules, s0, w) && WithinLimits(rules, w)
    && ExactDependencies(s0, w) && QueueReady(s0, w) && DependersOk(s0, deps, w.orphans)
    && Accounted(w, eligible)
  }

  /** How much work is left: decreases with every pass. */
  function Left(w: Work): nat {
    |w.heap| + |Waiting(w.orphans)|
  }

  // ---------------------------------------------------------------- one step keeps it all

  lemma {:induction false} ConnectSnoc(s: Snapshot, txs: seq<Tx>, tx: Tx, height: int)
    requires ConnectableBlock(s, txs, height) && Connectable(ConnectBlock(s, txs, height).0, tx)
    ensures ConnectableBlock(s, txs + [tx], height)
    ensures ConnectBlock(s, txs + [tx], height).0 == ConnectTx(ConnectBlock(s, txs, height).0, tx, height).0
    decreases |txs|
  {
    hide ConnectTx, Connectable;
    if txs == [] {
      assert txs + [tx] == [tx] && [tx][1..] == [];
    } else {
      assert (txs + [tx])[1..] == txs[1..] + [tx];
      ConnectSnoc(ConnectTx(s, txs[0], height).0, txs[1..], tx, height);
    }
  }

  lemma SumSnoc(s: seq<int>, x: int)
    ensures Sum(s + [x]) == Sum(s) + x
  {
    assert (s + [x])[..|s|] == s;
  }

  lemma IncludedReplays(rules: Rules, s0: Snapshot, w: Work, tx: Tx)
    requires Replays(rules, s0, w) && HaveInputs(w.coins, tx) && Proper(tx) && Connectable(w.coins, tx)
    requires rules.checkInputs(tx, InputCoins(w.coins, tx))
    ensures Replays(rules, s0, Included(rules, w, tx))
  {
    hide ConnectTx, Connectable, ConnectBlock, ConnectableBlock, HaveInputs, FeeOf, SigOpsOf, InputCoins;
    var r, n := Included(rules, w, tx), |w.block|;
    ConnectSnoc(s0, w.block, tx, rules.height);
    forall i | 0 <= i < |r.block| ensures RightAt(rules, s0, r, i) {
      if i < n {
        assert RightAt(rules, s0, w, i);
        assert r.block[..i] == w.block[..i];
      } else {
        assert r.block[..i] == w.block;
      }
    }
  }

  lemma IncludedLimits(rules: Rules, w: Work, c: Candidate)
    requires WithinLimits(rules, w) && w.size + rules.size(c.tx) < rules.maxSize && Acceptable(rules, w, c.tx) && Connectable(w.coins, c.tx)
    ensures WithinLimits(rules, Included(rules, w, c.tx))
  {
    hide ConnectTx, Connectable, HaveInputs, FeeOf, SigOpsOf, InputCoins;
    var r := Included(rules, w, c.tx);
    assert r.block[..|w.block|] == w.block;
    SumSnoc(w.fees, FeeOf(w.coins, c.tx));
    SumSnoc(w.sigOps, SigOpsOf(rules, w.coins, c.tx));
  }

  /** Take the candidate at place `i` off the queue. */
  function Popped(w: Work, i: nat): Work
    requires i < |w.heap|
  {
    w.(heap := Removed(w.heap, i), taken := w.taken + [w.heap[i].tx.hash])
  }

  lemma PoppedAccounts(w: Work, i: nat)
    requires i < |w.heap|
    ensures var r := Popped(w, i);
            && |r.heap| == |w.heap| - 1
            && multiset(HashesOf(r.heap)) + multiset{w.heap[i].tx.hash} == multiset(HashesOf(w.heap))
            && multiset(r.taken) == multiset(w.taken) + multiset{w.heap[i].tx.hash}
  {
    var h := HashesOf(w.heap);
    assert h == h[..i] + [h[i]] + h[i + 1..];
    assert HashesOf(Removed(w.heap, i)) == h[..i] + h[i + 1..];
  }

  lemma PoppedGood(rules: Rules, s0: Snapshot, deps: Dependers, w: Work, i: nat, eligible: multiset<Hash>, byFee: bool)
    requires Good(rules, s0, deps, w, eligible) && i < |w.heap|
    ensures Good(rules, s0, deps, Popped(w, i).(byFee := byFee), eligible)
    ensures multiset(TxHashes(w.block)) + multiset{w.heap[i].tx.hash} <= multiset(Popped(w, i).taken)
  {
    hide HashesOf, Waiting, TxHashes, Missing, BlockHashes, RightAt, Sum, SumSizes, DependersOk, Replays, QueueReady, Popped;
    var r := Popped(w, i).(byFee := byFee);
    PoppedAccounts(w, i);
    PoppedFields(w, i);
    Regroup(multiset(HashesOf(r.heap)), Waiting(w.orphans), multiset(w.taken), multiset{w.heap[i].tx.hash});
    ReplaysSame(rules, s0, w, r);
    PoppedReady(s0, w, i, byFee);
  }

  lemma Regroup(a: multiset<Hash>, b: multiset<Hash>, c: multiset<Hash>, h: multiset<Hash>)
    ensures a + b + (c + h) == (a + h) + b + c
  {
  }

  lemma PoppedFields(w: Work, i: nat)
    requires i < |w.heap|
    ensures var r := Popped(w, i); r == w.(heap := r.heap, taken := r.taken)
  {
  }

  lemma PoppedReady(s0: Snapshot, w: Work, i: nat, byFee: bool)
    requires QueueReady(s0, w) && i < |w.heap|
    ensures QueueReady(s0, Popped(w, i).(byFee := byFee))
  {
    hide Missing, BlockHashes;
    var r := Popped(w, i);
    forall k | 0 <= k < |r.heap| ensures Proper(r.heap[k].tx) && Missing(s0, r.heap[k].tx) <= BlockHashes(r.block) {
      assert r.heap[k] == w.heap[if k < i then k else k + 1];
    }
  }

  lemma ReplaysSame(rules: Rules, s0: Snapshot, w: Work, r: Work)
    requires Replays(rules, s0, w) && r.coins == w.coins
    requires r.block == w.block && r.fees == w.fees && r.sigOps == w.sigOps
    ensures Replays(rules, s0, r)
  {
    hide RightAt, ConnectBlock, ConnectableBlock;
    forall k | 0 <= k < |w.block| ensures RightAt(rules, s0, r, k) {
      assert RightAt(rules, s0, w, k);
      RightAtSame(rules, s0, w, r, k);
    }
  }

  lemma RightAtSame(rules: Rules, s0: Snapshot, w: Work, r: Work, i: nat)
    requires i < |w.block| && |w.fees| == |w.block| == |w.sigOps| && RightAt(rules, s0, w, i)
    requires r.block == w.block && r.fees == w.fees && r.sigOps == w.sigOps
    ensures RightAt(rules, s0, r, i)
  {
  }

  lemma MoreHashes(block: seq<Tx>, tx: Tx)
    ensures BlockHashes(block + [tx]) == BlockHashes(block) + {tx.hash}
    ensures multiset(TxHashes(block + [tx])) == multiset(TxHashes(block)) + multiset{tx.hash}
  {
    var b := block + [tx];
    assert TxHashes(b) == TxHashes(block) + [tx.hash];
    forall x | x in BlockHashes(block) + {tx.hash} ensures x in BlockHashes(b) {
      if x == tx.hash {
        assert b[|block|].hash == x;
      } else {
        var i :| 0 <= i < |block| && block[i].hash == x;
        assert b[i].hash == x;
      }
    }
  }

  /** Telling the dependers makes the dependencies exact again. */
  lemma ReleasedExact(s0: Snapshot, deps: Dependers, w: Work, q: Work, r: Work, hash: Hash)
    requires ExactDependencies(s0, w) && DependersOk(s0, deps, w.orphans) && q.orphans == w.orphans
    requires BlockHashes(r.block) == BlockHashes(w.block) + {hash}
    requires var ks := Waiters(deps, hash); Told(r, q, ks, |ks|, hash)
    ensures ExactDependencies(s0, r) && DependersOk(s0, deps, r.orphans)
  {
    hide Missing, BlockHashes;
    var ks := Waiters(deps, hash);
    assert ks[..|ks|] == ks;
    forall k | 0 <= k < |r.orphans|
      ensures r.orphans[k].dependsOn == Missing(s0, r.orphans[k].candidate.tx) - BlockHashes(r.block)
    {
      var m := Missing(s0, w.orphans[k].candidate.tx);
      assert hash in m ==> k in ks;
      assert m - (BlockHashes(w.block) + {hash}) == m - BlockHashes(w.block) - {hash};
    }
  }

  lemma ReleasedReady(s0: Snapshot, w: Work, r: Work)
    requires QueueReady(s0, w) && ExactDependencies(s0, r) && BlockHashes(w.block) <= BlockHashes(r.block)
    requires FromOrphans(r, w)
    ensures QueueReady(s0, r)
  {
    hide Missing, BlockHashes;
    forall i | 0 <= i < |r.heap| ensures Proper(r.heap[i].tx) && Missing(s0, r.heap[i].tx) <= BlockHashes(r.block) {
      if i < |w.heap| {
        assert r.heap[i] == w.heap[i];
      } else {
        assert IsReleased(r.orphans, r.heap[i]);
        var k :| 0 <= k < |r.orphans| && r.orphans[k] == Orphan(r.heap[i], {});
        NothingLeft(Missing(s0, r.heap[i].tx), BlockHashes(r.block));
      }
    }
  }

  lemma NothingLeft(a: set<Hash>, b: set<Hash>)
    ensures a - b == {} ==> a <= b
  {
    forall x | x in a && x !in b ensures x in a - b {
    }
  }

  /** Putting the candidate into the block and telling its dependers. */
  lemma IncludedGood(rules: Rules, s0: Snapshot, deps: Dependers, w: Work, c: Candidate, eligible: multiset<Hash>)
    requires Good(rules, s0, deps, w, eligible) && Proper(c.tx) && Connectable(w.coins, c.tx)
    requires w.size + rules.size(c.tx) < rules.maxSize && Acceptable(rules, w, c.tx)
    requires multiset(TxHashes(w.block)) + multiset{c.tx.hash} <= multiset(w.taken)
    ensures var ks := Waiters(deps, c.tx.hash);
            var r := Release(Included(rules, w, c.tx), ks, |ks|, c.tx.hash);
            Good(rules, s0, deps, r, eligible)
            && multiset(HashesOf(r.heap)) + Waiting(r.orphans) == multiset(HashesOf(w.heap)) + Waiting(w.orphans)
  {
    hide Release, Included, RightAt, HashesOf, Waiting, TxHashes, Missing, BlockHashes, Connectable, HaveInputs, Admissible, DependersOk;
    hide Sum, SumSizes, InputCoins, SigOpsOf, Told, FromOrphans, Replays;
    var q := Included(rules, w, c.tx);
    var ks := Waiters(deps, c.tx.hash);
    var r := Release(q, ks, |ks|, c.tx.hash);
    IncludedReplays(rules, s0, w, c.tx);
    IncludedLimits(rules, w, c);
    IncludedFields(rules, w, c.tx);
    ReleaseEffect(q, ks, |ks|, c.tx.hash);
    MoreHashes(w.block, c.tx);
    ReleasedExact(s0, deps, w, q, r, c.tx.hash);
    assert QueueReady(s0, q) by { LaterReady(s0, w, q); }
    ReleasedReady(s0, q, r);
    ReplaysSame(rules, s0, q, r);
  }

  lemma LaterReady(s0: Snapshot, w: Work, q: Work)
    requires QueueReady(s0, w) && q.heap == w.heap && BlockHashes(w.block) <= BlockHashes(q.block)
    ensures QueueReady(s0, q)
  {
    hide Missing, BlockHashes;
  }

  lemma IncludedFields(rules: Rules, w: Work, tx: Tx)
    requires HaveInputs(w.coins, tx) && Connectable(w.coins, tx)
    ensures var q := Included(rules, w, tx);
            q.heap == w.heap && q.orphans == w.orphans && q.taken == w.taken && q.block == w.block + [tx] && q.byFee == w.byFee
  {
  }

  lemma HeapProper(s0: Snapshot, w: Work, i: nat)
    requires QueueReady(s0, w) && i < |w.heap|
    ensures Proper(w.heap[i].tx)
  {
  }

  /** Every pass of the loop keeps the invariant and leaves less to do. */
  lemma ConsideredGood(rules: Rules, s0: Snapshot, deps: Dependers, w: Work, i: nat, eligible: multiset<Hash>)
    requires Good(rules, s0, deps, w, eligible) && i < |w.heap|
    ensures Proper(w.heap[i].tx)
    ensures Good(rules, s0, deps, Considered(rules, deps, w, i), eligible)
    ensures Left(Considered(rules, deps, w, i)) < Left(w)
  {
    hide HashesOf, Waiting, TxHashes, Replays, WithinLimits, ExactDependencies, QueueReady, DependersOk, Release, Acceptable, NowByFee, Admissible;
    HeapProper(s0, w, i);
    var c := w.heap[i];
    PoppedAccounts(w, i);
    PoppedGood(rules, s0, deps, w, i, eligible, w.byFee);
    if Admissible(rules, w, c) {
      var w2 := Popped(w, i).(byFee := NowByFee(rules, w, c));
      PoppedGood(rules, s0, deps, w, i, eligible, NowByFee(rules, w, c));
      if Acceptable(rules, w, c.tx) {
        AcceptedLater(rules, w, w2, c);
        IncludedGood(rules, s0, deps, w2, c, eligible);
        var ks := Waiters(deps, c.tx.hash);
        var r := Release(Included(rules, w2, c.tx), ks, |ks|, c.tx.hash);
        assert |multiset(HashesOf(r.heap)) + Waiting(r.orphans)| == |multiset(HashesOf(w2.heap)) + Waiting(w2.orphans)|;
        Sizes(r);
        Sizes(w2);
      }
    }
  }

  lemma Sizes(w: Work)
    ensures Left(w) == |multiset(HashesOf(w.heap)) + Waiting(w.orphans)|
  {
  }

  /** The order of the queue does not matter to the tests. */
  lemma AcceptedLater(rules: Rules, w: Work, q: Work, c: Candidate)
    requires Admissible(rules, w, c) && Acceptable(rules, w, c.tx) && Proper(c.tx)
    requires q == w.(heap := q.heap, taken := q.taken, byFee := q.byFee)
    ensures Acceptable(rules, q, c.tx) && Connectable(q.coins, c.tx)
    ensures w.size + rules.size(c.tx) < rules.maxSize
  {
    DistinctSpendable(w.coins, c.tx.vin);
  }

  // ---------------------------------------------------------------- whole runs

  /** The state in which the selection starts. */
  function Start(rules: Rules, s0: Snapshot, heap: seq<Candidate>, orphans: seq<Orphan>): Work {
    Work(s0, heap, orphans, rules.prioritySize <= 0, [], [], [], [], 1000, 100, 0)
  }

  /** The selection loop: as long as something is queued, the highest is considered. */
  ghost predicate IsRun(rules: Rules, deps: Dependers, works: seq<Work>) {
    && works != []
    && forall k {:trigger works[k]} :: 0 <= k < |works| - 1 ==> Pass(rules, deps, works[k], works[k + 1])
  }

  ghost predicate Pass(rules: Rules, deps: Dependers, w: Work, r: Work) {
    exists i: nat :: Highest(w, i) && Proper(w.heap[i].tx) && r == Considered(rules, deps, w, i)
  }

  lemma PassGood(rules: Rules, s0: Snapshot, deps: Dependers, w: Work, r: Work, eligible: multiset<Hash>)
    requires Good(rules, s0, deps, w, eligible) && Pass(rules, deps, w, r)
    ensures Good(rules, s0, deps, r, eligible) && Left(r) < Left(w)
  {
    hide Good, Considered;
    var i: nat :| Highest(w, i) && Proper(w.heap[i].tx) && r == Considered(rules, deps, w, i);
    ConsideredGood(rules, s0, deps, w, i, eligible);
  }

  /** In every state of every run the invariant holds, and no run is longer than there were transactions. */
  lemma {:induction false} RunGood(rules: Rules, s0: Snapshot, deps: Dependers, works: seq<Work>, k: nat, eligible: multiset<Hash>)
    requires IsRun(rules, deps, works) && Good(rules, s0, deps, works[0], eligible) && k < |works|
    ensures Good(rules, s0, deps, works[k], eligible) && k + Left(works[k]) <= Left(works[0])
    decreases k
  {
    hide Good, Pass, Left;
    if k > 0 {
      RunGood(rules, s0, deps, works, k - 1, eligible);
      assert Pass(rules, deps, works[k - 1], works[k - 1 + 1]);
      PassGood(rules, s0, deps, works[k - 1], works[k], eligible);
    }
  }

  lemma PutKeys(s: Snapshot, txid: Hash, c: Coins)
    ensures Put(s, txid, c).Keys <= s.Keys + {txid}
  {
  }

  lemma {:induction false} SpendKeys(s: Snapshot, vin: seq<OutPoint>)
    requires AllSpendable(s, vin)
    ensures SpendAll(s, vin).0.Keys <= s.Keys
    decreases |vin|
  {
    if vin != [] {
      var s1 := SpendOut(s, vin[0]).0;
      PutKeys(s, vin[0].hash, Spend(s[vin[0].hash], vin[0].n).value.0);
      assert s1.Keys <= s.Keys;
      SpendKeys(s1, vin[1..]);
    }
  }

  lemma ConnectTxKeys(s: Snapshot, tx: Tx, height: int)
    requires Connectable(s, tx)
    ensures ConnectTx(s, tx, height).0.Keys <= s.Keys + {tx.hash}
  {
    hide SpendAll, FromTx, Put;
    if !tx.coinBase {
      SpendKeys(s, tx.vin);
    }
    PutKeys(if tx.coinBase then s else SpendAll(s, tx.vin).0, tx.hash, FromTx(tx, height));
  }

  /** Connecting transactions adds no other records than theirs. */
  lemma {:induction false} ConnectKeys(s: Snapshot, txs: seq<Tx>, height: int)
    requires ConnectableBlock(s, txs, height)
    ensures ConnectBlock(s, txs, height).0.Keys <= s.Keys + BlockHashes(txs)
    decreases |txs|
  {
    hide ConnectTx, Connectable;
    if txs != [] {
      ConnectTxKeys(s, txs[0], height);
      ConnectKeys(ConnectTx(s, txs[0], height).0, txs[1..], height);
      assert txs[0].hash in BlockHashes(txs);
      forall x | x in BlockHashes(txs[1..]) ensures x in BlockHashes(txs) {
        var i :| 0 <= i < |txs[1..]| && txs[1..][i].hash == x;
        assert txs[i + 1].hash == x;
      }
    }
  }

  /** A transaction comes after all of its parents that are not in the chain. */
  lemma ParentsFirst(rules: Rules, s0: Snapshot, w: Work, i: nat)
    requires Replays(rules, s0, w) && i < |w.block|
    ensures Missing(s0, w.block[i]) <= BlockHashes(w.block[..i])
  {
    hide ConnectBlock, ConnectableBlock, InputCoins, SigOpsOf, FeeOf, BlockHashes;
    assert RightAt(rules, s0, w, i);
    ConnectKeys(s0, w.block[..i], rules.height);
    var s := ConnectBlock(s0, w.block[..i], rules.height).0;
    forall x | x in Missing(s0, w.block[i]) ensures x in BlockHashes(w.block[..i]) {
      var j :| 0 <= j < |w.block[i].vin| && w.block[i].vin[j].hash == x && x !in s0;
      assert Spendable(s, w.block[i].vin[j]);
      assert x in s.Keys;
    }
  }

  /** No transaction is selected twice, if none is in the pool twice. */
  lemma SelectedOnce(w: Work, eligible: multiset<Hash>, i: nat, j: nat)
    requires Accounted(w, eligible) && (forall x :: eligible[x] <= 1) && i < j < |w.block|
    ensures w.block[i].hash != w.block[j].hash
  {
    hide Waiting, HashesOf;
    var h, x := TxHashes(w.block), w.block[i].hash;
    assert eligible[x] >= multiset(w.taken)[x] >= multiset(h)[x];
    if w.block[j].hash == x {
      Twice(h, i, j);
      assert false;
    }
  }

  lemma Twice(h: seq<Hash>, i: nat, j: nat)
    requires i < j < |h| && h[i] == h[j]
    ensures multiset(h)[h[i]] >= 2
  {
    assert h == h[..j] + h[j..];
    assert h[..j][i] == h[i] && h[j..][0] == h[i];
    assert multiset(h) == multiset(h[..j]) + multiset(h[j..]);
    assert h[i] in multiset(h[..j]) && h[i] in multiset(h[j..]);
  }

  /**
   * When the queue is empty, every eligible transaction was either considered or still waits,
   * and those that wait are exactly the orphans with a parent that did not make it into the block.
   */
  lemma Finished(rules: Rules, s0: Snapshot, deps: Dependers, w: Work, eligible: multiset<Hash>)
    requires Good(rules, s0, deps, w, eligible) && w.heap == []
    ensures Waiting(w.orphans) + multiset(w.taken) == eligible
    ensures forall k :: 0 <= k < |w.orphans| ==>
      (w.orphans[k].dependsOn != {} <==> !(Missing(s0, w.orphans[k].candidate.tx) <= BlockHashes(w.block)))
  {
    hide Missing, BlockHashes, Waiting;
    assert HashesOf(w.heap) == [];
    assert multiset(HashesOf(w.heap)) == multiset{};
    forall k | 0 <= k < |w.orphans|
      ensures w.orphans[k].dependsOn != {} <==> !(Missing(s0, w.orphans[k].candidate.tx) <= BlockHashes(w.block))
    {
      NothingLeft(Missing(s0, w.orphans[k].candidate.tx), BlockHashes(w.block));
    }
  }

  /** The first entry of the template's fees is what the others add up to, negated. */
  lemma FeesCancel(rules: Rules, w: Work)
    requires WithinLimits(rules, w)
    ensures Sum([-w.totalFees] + w.fees) == 0
  {
    SumFront(-w.totalFees, w.fees);
  }

  lemma {:induction false} SumFront(x: int, s: seq<int>)
    ensures Sum([x] + s) == x + Sum(s)
    decreases |s|
  {
    if s == [] {
      assert [x] + s == [x] && [x][..0] == [];
    } else {
      assert ([x] + s)[..|s|] == [x] + s[..|s| - 1];
      SumFront(x, s[..|s| - 1]);
    }
  }
}
