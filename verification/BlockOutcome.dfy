/** Which pools lead the selection to a pointer to a removed entry (`CreateNewBlock`, src/miner.cpp). */
module BlockOutcome {
  import opened Coins
  import opened CoinsCache
  import opened BlockAssembly
  import opened BlockPool
  import opened BlockSelection

  /** No parent that keeps a pointer to a removed entry is eligible. */
  ghost predicate NoneStale(rules: Rules, s0: Snapshot, pool: Pool, order: seq<Hash>) {
    forall p :: p in Stale(rules, s0, pool, order, |order|) ==> p !in Eligible(rules, s0, pool, order, |order|)
  }

  /** An eligible transaction all of whose parents are in the chain. */
  predicate IsReady(rules: Rules, s0: Snapshot, pool: Pool, h: Hash) {
    h in pool && IsEligible(rules, s0, pool, pool[h]) && AllConnect(s0, pool, pool[h].vin) && Missing(s0, pool[h]) == {}
  }

  /** One of these that none of them outranks: the first to be considered, or one of several. */
  ghost predicate IsFront(rules: Rules, s0: Snapshot, pool: Pool, order: seq<Hash>, h: Hash) {
    && h in order && IsReady(rules, s0, pool, h)
    && forall x :: x in order && IsReady(rules, s0, pool, x) ==>
         !Less(rules.prioritySize <= 0, Ranked(rules, s0, pool, pool[h]), Ranked(rules, s0, pool, pool[x]))
  }

  /** There is a front-runner, and each keeps a pointer to a removed entry and passes every test at the start. */
  ghost predicate FrontsAreStale(rules: Rules, s0: Snapshot, pool: Pool, order: seq<Hash>) {
    && (exists h :: h in order && IsReady(rules, s0, pool, h))
    && forall h :: IsFront(rules, s0, pool, order, h) ==>
         && h in Stale(rules, s0, pool, order, |order|)
         && Passes(rules, Start(rules, s0, [], []), Ranked(rules, s0, pool, pool[h]))
  }

  // ---------------------------------------------------------------- when it cannot come to that

  lemma BlockIsEligible(w: Work, eligible: multiset<Hash>, p: Hash)
    requires Accounted(w, eligible) && p in BlockHashes(w.block)
    ensures p in eligible
  {
    hide Waiting, HashesOf;
    var i :| 0 <= i < |w.block| && w.block[i].hash == p;
    assert TxHashes(w.block)[i] == p;
    assert p in multiset(TxHashes(w.block));
    assert multiset(w.taken)[p] <= eligible[p];
  }

  lemma NoneStaleDefined(settings: Rules, rules: Rules, s0: Snapshot, pool: Pool, order: seq<Hash>, deps: Dependers, w: Work)
    requires NoneStale(settings, s0, pool, order)
    requires Good(rules, s0, deps, w, Eligible(settings, s0, pool, order, |order|))
    ensures BlockHashes(w.block) !! Stale(settings, s0, pool, order, |order|)
  {
    hide Eligible, Stale, Accounted, BlockHashes, Replays, WithinLimits, ExactDependencies, QueueReady, DependersOk;
    forall p | p in BlockHashes(w.block) ensures p !in Stale(settings, s0, pool, order, |order|) {
      BlockIsEligible(w, Eligible(settings, s0, pool, order, |order|), p);
    }
  }

  // ---------------------------------------------------------------- when it must

  lemma EligibleIsListed(rules: Rules, s0: Snapshot, pool: Pool, order: seq<Hash>, h: Hash)
    requires PoolOk(rules, s0, pool, order)
    ensures h in Eligible(rules, s0, pool, order, |order|) <==> h in order && h in pool && IsEligible(rules, s0, pool, pool[h])
  {
    hide Eligible, IsEligible;
    EligibleOnce(rules, s0, pool, order, |order|);
    assert order[..|order|] == order;
    assert Eligible(rules, s0, pool, order, |order|)[h] == if h in order && h in pool && IsEligible(rules, s0, pool, pool[h]) then 1 else 0;
  }

  /** What is queued at the start is ready. */
  lemma QueuedIsReady(rules: Rules, s0: Snapshot, pool: Pool, order: seq<Hash>, deps: Dependers, w: Work, i: nat)
    requires PoolOk(rules, s0, pool, order) && Good(rules, s0, deps, w, Eligible(rules, s0, pool, order, |order|))
    requires w.block == [] && w.taken == [] && AllRanked(rules, s0, pool, w.heap, w.orphans) && i < |w.heap|
    ensures var h := w.heap[i].tx.hash;
            h in order && IsReady(rules, s0, pool, h) && w.heap[i] == Ranked(rules, s0, pool, pool[h])
  {
    hide Eligible, IsEligible, PoolOk, Replays, WithinLimits, ExactDependencies, DependersOk, Waiting, Ranked, AllConnect, Missing;
    var h := w.heap[i].tx.hash;
    QueuedRank(rules, s0, pool, w, i);
    assert IsRanked(rules, s0, pool, w.heap[i]);
    assert HashesOf(w.heap)[i] == h;
    assert h in multiset(HashesOf(w.heap));
    EligibleIsListed(rules, s0, pool, order, h);
    assert BlockHashes([]) == {};
    assert Missing(s0, w.heap[i].tx) <= BlockHashes(w.block);
  }

  /** What is ready is queued at the start. */
  lemma ReadyIsQueued(rules: Rules, s0: Snapshot, pool: Pool, order: seq<Hash>, deps: Dependers, w: Work, h: Hash) returns (i: nat)
    requires PoolOk(rules, s0, pool, order) && Good(rules, s0, deps, w, Eligible(rules, s0, pool, order, |order|))
    requires w.block == [] && w.taken == [] && AllRanked(rules, s0, pool, w.heap, w.orphans)
    requires h in order && IsReady(rules, s0, pool, h)
    ensures i < |w.heap| && w.heap[i] == Ranked(rules, s0, pool, pool[h])
  {
    hide Eligible, IsEligible, PoolOk, Replays, WithinLimits, QueueReady, DependersOk, Waiting, Ranked, AllConnect, Missing;
    EligibleIsListed(rules, s0, pool, order, h);
    if h in Waiting(w.orphans) {
      var k := WaitingOrphan(w.orphans, h);
      OrphanRank(rules, s0, pool, w, k);
      assert false;
    }
    assert h in multiset(HashesOf(w.heap));
    i :| 0 <= i < |w.heap| && HashesOf(w.heap)[i] == h;
    QueuedRank(rules, s0, pool, w, i);
  }

  /** Whatever else is queued, the start decides whether a candidate passes the tests there. */
  lemma PassesAtStart(rules: Rules, s0: Snapshot, heap: seq<Candidate>, orphans: seq<Orphan>, c: Candidate)
    ensures Passes(rules, Start(rules, s0, heap, orphans), c) <==> Passes(rules, Start(rules, s0, [], []), c)
  {
    hide HaveInputs, InputCoins, SigOpsOf;
  }

  /** The first candidate taken is a front-runner. */
  lemma FirstIsFront(rules: Rules, s0: Snapshot, pool: Pool, order: seq<Hash>, deps: Dependers, w: Work, i: nat)
    requires PoolOk(rules, s0, pool, order) && Good(rules, s0, deps, w, Eligible(rules, s0, pool, order, |order|))
    requires w == Start(rules, s0, w.heap, w.orphans) && AllRanked(rules, s0, pool, w.heap, w.orphans) && Highest(w, i)
    ensures var h := w.heap[i].tx.hash;
            IsFront(rules, s0, pool, order, h) && w.heap[i] == Ranked(rules, s0, pool, pool[h])
  {
    hide Eligible, PoolOk, Good, Ranked, IsReady, Less, AllRanked;
    QueuedIsReady(rules, s0, pool, order, deps, w, i);
    var h := w.heap[i].tx.hash;
    forall x | x in order && IsReady(rules, s0, pool, x)
      ensures x in pool && AllConnect(s0, pool, pool[x].vin)
      ensures !Less(w.byFee, w.heap[i], Ranked(rules, s0, pool, pool[x]))
    {
      ReadyConnects(rules, s0, pool, x);
      var j := ReadyIsQueued(rules, s0, pool, order, deps, w, x);
    }
    ReadyConnects(rules, s0, pool, h);
  }

  lemma ReadyConnects(rules: Rules, s0: Snapshot, pool: Pool, h: Hash)
    requires IsReady(rules, s0, pool, h)
    ensures h in pool && AllConnect(s0, pool, pool[h].vin)
  {
  }

  /** If every front-runner is such a parent, every complete run puts one into the block. */
  lemma FrontsUndefined(rules: Rules, s0: Snapshot, pool: Pool, order: seq<Hash>, deps: Dependers, works: seq<Work>)
    requires PoolOk(rules, s0, pool, order) && IsRun(rules, deps, works) && works[|works| - 1].heap == []
    requires Good(rules, s0, deps, works[0], Eligible(rules, s0, pool, order, |order|))
    requires var w := works[0]; w == Start(rules, s0, w.heap, w.orphans) && AllRanked(rules, s0, pool, w.heap, w.orphans)
    requires FrontsAreStale(rules, s0, pool, order)
    ensures !(BlockHashes(works[|works| - 1].block) !! Stale(rules, s0, pool, order, |order|))
  {
    hide Eligible, Stale, PoolOk, Good, Ranked, IsReady, AllRanked, Passes, Considered, Pass, Highest, BlockHashes, IsFront;
    var w, last := works[0], |works| - 1;
    var x :| x in order && IsReady(rules, s0, pool, x);
    ReadyConnects(rules, s0, pool, x);
    var _ := ReadyIsQueued(rules, s0, pool, order, deps, w, x);
    var i := TheTaken(rules, deps, works, 0);
    TakenEffect(rules, deps, works, 0, i);
    FirstIsFront(rules, s0, pool, order, deps, w, i);
    var c := w.heap[i];
    PassesAtStart(rules, s0, w.heap, w.orphans, c);
    Grows(rules, deps, works, 1, last);
    assert works[1].block == [c.tx];
    FirstHash(works[last].block, c.tx);
  }

  lemma FirstHash(block: seq<Tx>, tx: Tx)
    requires [tx] <= block
    ensures tx.hash in BlockHashes(block)
  {
    assert block[0] == tx;
  }

  /** The simplest such pool: nothing is eligible but one parent of this kind. */
  lemma LoneStaleParent(rules: Rules, s0: Snapshot, pool: Pool, order: seq<Hash>, p: Hash)
    requires p in order && IsReady(rules, s0, pool, p) && p in Stale(rules, s0, pool, order, |order|)
    requires forall h :: h in order && h in pool && IsEligible(rules, s0, pool, pool[h]) ==> h == p
    requires Passes(rules, Start(rules, s0, [], []), Ranked(rules, s0, pool, pool[p]))
    ensures FrontsAreStale(rules, s0, pool, order) && !NoneStale(rules, s0, pool, order)
  {
    hide Stale, Passes, Ranked, Less;
    ListedIsEligible(rules, s0, pool, order, |order|, p);
  }

  lemma {:induction false} ListedIsEligible(rules: Rules, s0: Snapshot, pool: Pool, order: seq<Hash>, k: nat, p: Hash)
    requires k <= |order| && p in order[..k] && p in pool && IsEligible(rules, s0, pool, pool[p])
    ensures p in Eligible(rules, s0, pool, order, k)
  {
    hide IsEligible;
    assert order[..k] == order[..k - 1] + [order[k - 1]];
    if p != order[k - 1] {
      ListedIsEligible(rules, s0, pool, order, k - 1, p);
    }
  }
}
