/** What becomes of every transaction of the pool (`CreateNewBlock`, src/miner.cpp). */
module BlockSelection {
  import opened Coins
  import opened CoinsCache
  import opened BlockUndo
  import opened BlockAssembly
  import opened BlockPool

  /** Does a candidate pass every test? */
  predicate Passes(rules: Rules, w: Work, c: Candidate) {
    Admissible(rules, w, c) && Acceptable(rules, w, c.tx)
  }

  /** In pass `k` of a run the candidate at place `i` was in front, and was taken. */
  ghost predicate TakenAt(rules: Rules, deps: Dependers, works: seq<Work>, k: int, i: nat) {
    && 0 <= k < |works| - 1 && i < |works[k].heap| && Highest(works[k], i) && Proper(works[k].heap[i].tx)
    && works[k + 1] == Considered(rules, deps, works[k], i)
  }

  /** A pass takes one candidate off the queue, and puts it into the block exactly if it passes every test. */
  lemma ConsideredEffect(rules: Rules, deps: Dependers, w: Work, i: nat)
    requires i < |w.heap| && Proper(w.heap[i].tx)
    ensures var r, c := Considered(rules, deps, w, i), w.heap[i];
            && r.taken == w.taken + [c.tx.hash]
            && r.block == if Passes(rules, w, c) then w.block + [c.tx] else w.block
  {
    hide Admissible, Acceptable, Release, HashesOf, Waiting, Told, FromOrphans, ConnectTx, Connectable, SigOpsOf, FeeOf;
    var c := w.heap[i];
    if Passes(rules, w, c) {
      AcceptedLater(rules, w, w, c);
      var ks := Waiters(deps, c.tx.hash);
      var w2 := w.(heap := Removed(w.heap, i), taken := w.taken + [c.tx.hash], byFee := NowByFee(rules, w, c));
      AcceptedLater(rules, w, w2, c);
      AcceptableInputs(rules, w2, c.tx);
      ReleaseEffect(Included(rules, w2, c.tx), ks, |ks|, c.tx.hash);
    }
  }

  lemma AcceptableInputs(rules: Rules, w: Work, tx: Tx)
    requires Acceptable(rules, w, tx)
    ensures HaveInputs(w.coins, tx)
  {
  }

  lemma TheTaken(rules: Rules, deps: Dependers, works: seq<Work>, k: int) returns (i: nat)
    requires IsRun(rules, deps, works) && 0 <= k < |works| - 1
    ensures TakenAt(rules, deps, works, k, i)
  {
    hide Considered;
    assert Pass(rules, deps, works[k], works[k + 1]);
    i :| Highest(works[k], i) && Proper(works[k].heap[i].tx) && works[k + 1] == Considered(rules, deps, works[k], i);
  }

  lemma TakenEffect(rules: Rules, deps: Dependers, works: seq<Work>, k: int, i: nat)
    requires TakenAt(rules, deps, works, k, i)
    ensures i < |works[k].heap|
    ensures var c := works[k].heap[i];
            && works[k + 1].taken == works[k].taken + [c.tx.hash]
            && works[k + 1].block == if Passes(rules, works[k], c) then works[k].block + [c.tx] else works[k].block
  {
    hide Considered, Passes;
    ConsideredEffect(rules, deps, works[k], i);
  }

  /** Nothing is in the block or taken before the first pass; afterwards one more is taken in every pass. */
  lemma {:induction false} Grows(rules: Rules, deps: Dependers, works: seq<Work>, j: nat, k: nat)
    requires IsRun(rules, deps, works) && j <= k < |works| && works[0].taken == []
    ensures works[j].taken <= works[k].taken && works[j].block <= works[k].block && |works[k].taken| == k
    decreases k
  {
    hide Considered, Passes, Highest, Pass;
    if k > 0 {
      var i := TheTaken(rules, deps, works, k - 1);
      TakenEffect(rules, deps, works, k - 1, i);
      Grows(rules, deps, works, if j < k then j else k - 1, k - 1);
    }
  }

  /** What was taken was taken in some pass. */
  lemma {:induction false} WhenTaken(rules: Rules, deps: Dependers, works: seq<Work>, k: nat, hash: Hash) returns (j: int, i: nat)
    requires IsRun(rules, deps, works) && k < |works| && works[0].taken == [] && hash in works[k].taken
    ensures TakenAt(rules, deps, works, j, i) && j < k && works[j].heap[i].tx.hash == hash
    decreases k
  {
    hide Considered, Passes, Highest, Pass;
    Grows(rules, deps, works, k, k);
    j := k - 1;
    i := TheTaken(rules, deps, works, j);
    TakenEffect(rules, deps, works, j, i);
    if works[j].heap[i].tx.hash != hash {
      j, i := WhenTaken(rules, deps, works, k - 1, hash);
    }
  }

  /** What is in the block was taken in some pass and passed every test there. */
  lemma {:induction false} WhenIncluded(rules: Rules, deps: Dependers, works: seq<Work>, k: nat, tx: Tx) returns (j: int, i: nat)
    requires IsRun(rules, deps, works) && k < |works| && works[0].taken == [] && works[0].block == [] && tx in works[k].block
    ensures TakenAt(rules, deps, works, j, i) && j < k && works[j].heap[i].tx == tx && Passes(rules, works[j], works[j].heap[i])
    decreases k
  {
    hide Considered, Passes, Highest, Pass;
    Grows(rules, deps, works, k, k);
    j := k - 1;
    i := TheTaken(rules, deps, works, j);
    TakenEffect(rules, deps, works, j, i);
    if !Passes(rules, works[j], works[j].heap[i]) || works[j].heap[i].tx != tx {
      j, i := WhenIncluded(rules, deps, works, k - 1, tx);
    }
  }

  /** A hash that was taken once was taken in one pass. */
  lemma OnePass(rules: Rules, deps: Dependers, works: seq<Work>, j: int, i: nat, j': int, i': nat)
    requires IsRun(rules, deps, works) && works[0].taken == []
    requires TakenAt(rules, deps, works, j, i) && TakenAt(rules, deps, works, j', i') && j < j'
    requires works[j].heap[i].tx.hash == works[j'].heap[i'].tx.hash
    ensures multiset(works[|works| - 1].taken)[works[j].heap[i].tx.hash] >= 2
  {
    hide Considered, Passes, Highest, Pass;
    var last := |works| - 1;
    TakenEffect(rules, deps, works, j, i);
    TakenEffect(rules, deps, works, j', i');
    Grows(rules, deps, works, j, j);
    Grows(rules, deps, works, j', j');
    Grows(rules, deps, works, j + 1, last);
    Grows(rules, deps, works, j' + 1, last);
    Twice(works[last].taken, j, j');
  }

  // ---------------------------------------------------------------- the best comes first

  /** Sorted by fee, nothing queued pays a higher rate, and nothing of the same rate has a higher priority. */
  ghost predicate BestByFee(w: Work, c: Candidate) {
    forall x :: x in w.heap ==> x.feeRate < c.feeRate || (x.feeRate == c.feeRate && x.priority <= c.priority)
  }

  /** Before that, nothing queued has a higher priority, and nothing of the same priority pays a higher rate. */
  ghost predicate BestByPriority(w: Work, c: Candidate) {
    forall x :: x in w.heap ==> x.priority < c.priority || (x.priority == c.priority && x.feeRate <= c.feeRate)
  }

  /** The pass from `w` to `r` takes the best of what is queued. */
  ghost predicate TakesBest(w: Work, r: Work) {
    exists c :: c in w.heap && r.taken == w.taken + [c.tx.hash] && if w.byFee then BestByFee(w, c) else BestByPriority(w, c)
  }

  ghost predicate BestFirst(works: seq<Work>) {
    forall k {:trigger works[k]} :: 0 <= k < |works| - 1 ==> TakesBest(works[k], works[k + 1])
  }

  lemma HighestIsBest(w: Work, i: nat)
    requires Highest(w, i)
    ensures if w.byFee then BestByFee(w, w.heap[i]) else BestByPriority(w, w.heap[i])
  {
    forall x | x in w.heap ensures !Less(w.byFee, w.heap[i], x) {
      var j :| 0 <= j < |w.heap| && w.heap[j] == x;
    }
  }

  /** In every pass of every run, the candidate taken is the best of those queued. */
  lemma RunBestFirst(rules: Rules, deps: Dependers, works: seq<Work>)
    requires IsRun(rules, deps, works)
    ensures BestFirst(works)
  {
    hide Considered, Passes, Highest, Pass, BestByFee, BestByPriority;
    forall k {:trigger works[k]} | 0 <= k < |works| - 1 ensures TakesBest(works[k], works[k + 1]) {
      var i := TheTaken(rules, deps, works, k);
      TakenEffect(rules, deps, works, k, i);
      HighestIsBest(works[k], i);
      assert works[k].heap[i] in works[k].heap;
    }
  }

  // ---------------------------------------------------------------- candidates stay what they are

  /** The queue and the orphans hold transactions of the pool under their proper ranks. */
  ghost predicate AllRanked(rules: Rules, s0: Snapshot, pool: Pool, heap: seq<Candidate>, orphans: seq<Orphan>) {
    && (forall i :: 0 <= i < |heap| ==> IsRanked(rules, s0, pool, heap[i]))
    && (forall k :: 0 <= k < |orphans| ==> IsRanked(rules, s0, pool, orphans[k].candidate))
  }

  lemma {:induction false} ReleaseRanked(rules: Rules, s0: Snapshot, pool: Pool, w: Work, ks: seq<nat>, n: nat, hash: Hash)
    requires n <= |ks| && AllRanked(rules, s0, pool, w.heap, w.orphans)
    ensures var r := Release(w, ks, n, hash); AllRanked(rules, s0, pool, r.heap, r.orphans)
    decreases n
  {
    hide IsRanked;
    if n > 0 {
      ReleaseRanked(rules, s0, pool, w, ks, n - 1, hash);
    }
  }

  lemma ConsideredRanked(rules: Rules, s0: Snapshot, pool: Pool, deps: Dependers, w: Work, i: nat)
    requires i < |w.heap| && Proper(w.heap[i].tx) && AllRanked(rules, s0, pool, w.heap, w.orphans)
    ensures var r := Considered(rules, deps, w, i); AllRanked(rules, s0, pool, r.heap, r.orphans)
  {
    hide IsRanked, Admissible, Acceptable, Release, ConnectTx, Connectable, SigOpsOf, FeeOf;
    var c := w.heap[i];
    var heap := Removed(w.heap, i);
    forall k | 0 <= k < |heap| ensures IsRanked(rules, s0, pool, heap[k]) {
      assert heap[k] == w.heap[if k < i then k else k + 1];
    }
    if Passes(rules, w, c) {
      var ks := Waiters(deps, c.tx.hash);
      var w2 := w.(heap := heap, taken := w.taken + [c.tx.hash], byFee := NowByFee(rules, w, c));
      AcceptedLater(rules, w, w2, c);
      AcceptableInputs(rules, w2, c.tx);
      ReleaseRanked(rules, s0, pool, Included(rules, w2, c.tx), ks, |ks|, c.tx.hash);
    }
  }

  lemma {:induction false} RunRanked(rules: Rules, s0: Snapshot, pool: Pool, deps: Dependers, works: seq<Work>, k: nat)
    requires IsRun(rules, deps, works) && k < |works| && AllRanked(rules, s0, pool, works[0].heap, works[0].orphans)
    ensures AllRanked(rules, s0, pool, works[k].heap, works[k].orphans)
    decreases k
  {
    hide Considered, AllRanked, Highest, Pass;
    if k > 0 {
      RunRanked(rules, s0, pool, deps, works, k - 1);
      var i := TheTaken(rules, deps, works, k - 1);
      TakenEffect(rules, deps, works, k - 1, i);
      ConsideredRanked(rules, s0, pool, deps, works[k - 1], i);
    }
  }

  // ---------------------------------------------------------------- the fate of every transaction

  /** The transaction waits for a parent that did not get into the block. */
  ghost predicate StillWaits(s0: Snapshot, block: seq<Tx>, tx: Tx) {
    tx !in block && !(Missing(s0, tx) <= BlockHashes(block))
  }

  /** It was taken in one of the passes, and is in the block exactly if it passed every test there. */
  ghost predicate Judged(rules: Rules, deps: Dependers, works: seq<Work>, c: Candidate)
    requires works != []
  {
    exists k: int, i: nat :: TakenAt(rules, deps, works, k, i) && works[k].heap[i] == c &&
      (c.tx in works[|works| - 1].block <==> Passes(rules, works[k], c))
  }

  lemma {:induction false} WaitingOrphan(orphans: seq<Orphan>, hash: Hash) returns (k: nat)
    requires hash in Waiting(orphans)
    ensures k < |orphans| && orphans[k].candidate.tx.hash == hash && orphans[k].dependsOn != {}
    decreases |orphans|
  {
    var n := |orphans| - 1;
    if hash in One(orphans[n]) {
      k := n;
    } else {
      k := WaitingOrphan(orphans[..n], hash);
    }
  }

  lemma PrefixHashes(block: seq<Tx>, n: nat)
    requires n <= |block|
    ensures BlockHashes(block[..n]) <= BlockHashes(block)
  {
    forall x | x in BlockHashes(block[..n]) ensures x in BlockHashes(block) {
      var i :| 0 <= i < n && block[..n][i].hash == x;
      assert block[i].hash == x;
    }
  }

  /** An orphan that still depends on something is not in the block. */
  lemma OrphanWaits(rules: Rules, s0: Snapshot, deps: Dependers, w: Work, eligible: multiset<Hash>, k: nat)
    requires Good(rules, s0, deps, w, eligible) && k < |w.orphans| && w.orphans[k].dependsOn != {}
    ensures StillWaits(s0, w.block, w.orphans[k].candidate.tx)
  {
    hide Missing, BlockHashes, Replays, WithinLimits, QueueReady, DependersOk, Accounted;
    var tx := w.orphans[k].candidate.tx;
    NothingLeft(Missing(s0, tx), BlockHashes(w.block));
    if tx in w.block {
      var i :| 0 <= i < |w.block| && w.block[i] == tx;
      ParentsFirst(rules, s0, w, i);
      PrefixHashes(w.block, i);
    }
  }

  /** A candidate taken in a pass is in the block at the end exactly if it passed every test in that pass. */
  lemma TakenJudged(rules: Rules, s0: Snapshot, pool: Pool, deps: Dependers, works: seq<Work>, j: int, i: nat)
    requires IsRun(rules, deps, works) && works[0].taken == [] && works[0].block == []
    requires AllRanked(rules, s0, pool, works[0].heap, works[0].orphans) && TakenAt(rules, deps, works, j, i)
    requires multiset(works[|works| - 1].taken)[works[j].heap[i].tx.hash] <= 1
    ensures Judged(rules, deps, works, works[j].heap[i])
  {
    hide Considered, Passes, Highest, Pass, IsRanked;
    var last, c := |works| - 1, works[j].heap[i];
    TakenEffect(rules, deps, works, j, i);
    Grows(rules, deps, works, j + 1, last);
    if Passes(rules, works[j], c) {
      assert works[j + 1].block[|works[j].block|] == c.tx;
      assert works[last].block[|works[j].block|] == c.tx;
    } else if c.tx in works[last].block {
      var j', i' := WhenIncluded(rules, deps, works, last, c.tx);
      if j < j' {
        OnePass(rules, deps, works, j, i, j', i');
      } else if j' < j {
        OnePass(rules, deps, works, j', i', j, i);
      } else {
        RunRanked(rules, s0, pool, deps, works, j);
        SameRank(rules, s0, pool, works[j].heap[i], works[j].heap[i']);
      }
      assert false;
    }
  }

  lemma SameRank(rules: Rules, s0: Snapshot, pool: Pool, a: Candidate, b: Candidate)
    requires IsRanked(rules, s0, pool, a) && IsRanked(rules, s0, pool, b) && a.tx.hash == b.tx.hash
    ensures a == b
  {
  }

  lemma RankedCandidate(rules: Rules, s0: Snapshot, pool: Pool, c: Candidate)
    requires IsRanked(rules, s0, pool, c)
    ensures c.tx.hash in pool && AllConnect(s0, pool, pool[c.tx.hash].vin) && c == Ranked(rules, s0, pool, pool[c.tx.hash])
  {
    hide Ranked;
  }

  /** What becomes of a transaction of the pool. */
  ghost predicate Explained(rules: Rules, s0: Snapshot, pool: Pool, deps: Dependers, works: seq<Work>, hash: Hash)
    requires works != []
  {
    && hash in pool && AllConnect(s0, pool, pool[hash].vin)
    && (StillWaits(s0, works[|works| - 1].block, pool[hash]) || Judged(rules, deps, works, Ranked(rules, s0, pool, pool[hash])))
  }

  /**
   * After every complete run, every eligible transaction that is not in the block still waits for a parent that is not in
   * it either, or failed a test in the pass in which it was taken; and every one that passed the tests is in the block.
   */
  lemma EveryoneExplained(rules: Rules, s0: Snapshot, pool: Pool, deps: Dependers, works: seq<Work>, eligible: multiset<Hash>, hash: Hash)
    requires IsRun(rules, deps, works) && Good(rules, s0, deps, works[0], eligible) && works[|works| - 1].heap == []
    requires works[0].taken == [] && works[0].block == [] && AllRanked(rules, s0, pool, works[0].heap, works[0].orphans)
    requires hash in eligible && eligible[hash] <= 1
    ensures Explained(rules, s0, pool, deps, works, hash)
  {
    hide Good, Passes, Highest, Pass, Considered, IsRanked, Judged, StillWaits, Missing, BlockHashes, AllRanked, Ranked, AllConnect, Waiting;
    var last := |works| - 1;
    var w := works[last];
    RunGood(rules, s0, deps, works, last, eligible);
    Finished(rules, s0, deps, w, eligible);
    if hash in w.taken {
      assert multiset(w.taken)[hash] <= eligible[hash];
      var j, i := WhenTaken(rules, deps, works, last, hash);
      TakenEffect(rules, deps, works, j, i);
      TakenJudged(rules, s0, pool, deps, works, j, i);
      RunRanked(rules, s0, pool, deps, works, j);
      QueuedRank(rules, s0, pool, works[j], i);
    } else {
      assert hash in Waiting(w.orphans);
      var k := WaitingOrphan(w.orphans, hash);
      OrphanWaits(rules, s0, deps, w, eligible, k);
      RunRanked(rules, s0, pool, deps, works, last);
      OrphanRank(rules, s0, pool, w, k);
    }
  }

  lemma QueuedRank(rules: Rules, s0: Snapshot, pool: Pool, w: Work, i: nat)
    requires AllRanked(rules, s0, pool, w.heap, w.orphans) && i < |w.heap|
    ensures var c := w.heap[i]; c.tx.hash in pool && AllConnect(s0, pool, pool[c.tx.hash].vin) && c == Ranked(rules, s0, pool, pool[c.tx.hash])
  {
    hide Ranked, AllConnect, IsRanked;
    RankedCandidate(rules, s0, pool, w.heap[i]);
  }

  lemma OrphanRank(rules: Rules, s0: Snapshot, pool: Pool, w: Work, k: nat)
    requires AllRanked(rules, s0, pool, w.heap, w.orphans) && k < |w.orphans|
    ensures var c := w.orphans[k].candidate; c.tx.hash in pool && AllConnect(s0, pool, pool[c.tx.hash].vin) && pool[c.tx.hash] == c.tx
  {
    hide Ranked, AllConnect;
    assert IsRanked(rules, s0, pool, w.orphans[k].candidate);
  }
}
