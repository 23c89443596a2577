/** The memory pool as a block is assembled from it: what is considered, what is dropped, and in which order (src/miner.cpp, src/amount.cpp). */
module BlockPool {
  import opened Common
  import opened Coins
  import opened CoinsCache
  import opened BlockAssembly
  import P = Positional

  type Pool = map<Hash, Tx>

  // ---------------------------------------------------------------- what is considered

  /** An output of neither the chain's unspent set nor a transaction of the pool. */
  predicate Nowhere(s0: Snapshot, pool: Pool, out: OutPoint) {
    out.hash !in s0 && out.hash !in pool
  }

  /** A transaction with such an input is dropped. */
  predicate IsDropped(s0: Snapshot, pool: Pool, tx: Tx) {
    exists i :: 0 <= i < |tx.vin| && Nowhere(s0, pool, tx.vin[i])
  }

  /** The loop over the inputs gets to input `i`, and beyond. */
  predicate Reached(s0: Snapshot, pool: Pool, tx: Tx, i: int) {
    0 <= i < |tx.vin| && forall j :: 0 <= j <= i ==> !Nowhere(s0, pool, tx.vin[j])
  }

  predicate IsCandidate(rules: Rules, tx: Tx) {
    !tx.coinBase && rules.isFinal(tx)
  }

  predicate IsEligible(rules: Rules, s0: Snapshot, pool: Pool, tx: Tx) {
    IsCandidate(rules, tx) && !IsDropped(s0, pool, tx)
  }

  /** The transactions of the pool that are considered at all, among the first `k` of it. */
  function Eligible(rules: Rules, s0: Snapshot, pool: Pool, order: seq<Hash>, k: nat): multiset<Hash>
    requires k <= |order|
  {
    if k == 0 then multiset{}
    else
      var h := order[k - 1];
      Eligible(rules, s0, pool, order, k - 1) +
      if h in pool && IsEligible(rules, s0, pool, pool[h]) then multiset{h} else multiset{}
  }

  /** Exactly the eligible transactions, each once. */
  lemma {:induction false} EligibleOnce(rules: Rules, s0: Snapshot, pool: Pool, order: seq<Hash>, k: nat)
    requires k <= |order| && forall i, j :: 0 <= i < j < |order| ==> order[i] != order[j]
    ensures forall x ::
      Eligible(rules, s0, pool, order, k)[x] == if x in order[..k] && x in pool && IsEligible(rules, s0, pool, pool[x]) then 1 else 0
  {
    hide IsEligible;
    if k > 0 {
      EligibleOnce(rules, s0, pool, order, k - 1);
      assert order[..k] == order[..k - 1] + [order[k - 1]];
    }
  }

  /** An input's output exists, in the chain's unspent set or in the pool. */
  predicate Connects(s0: Snapshot, pool: Pool, out: OutPoint) {
    if out.hash in s0 then out.n < |s0[out.hash].vout| else out.hash in pool && out.n < |pool[out.hash].vout|
  }

  predicate AllConnect(s0: Snapshot, pool: Pool, vin: seq<OutPoint>) {
    forall i :: 0 <= i < |vin| ==> Connects(s0, pool, vin[i])
  }

  /** `order` is the iteration order of the pool. The code reads the outputs of the inputs it reaches without looking at their number. */
  ghost predicate PoolOk(rules: Rules, s0: Snapshot, pool: Pool, order: seq<Hash>) {
    && (forall h :: h in order ==> h in pool && pool[h].hash == h)
    && (forall i, j :: 0 <= i < j < |order| ==> order[i] != order[j])
    && (forall h, i :: h in pool && IsCandidate(rules, pool[h]) && Reached(s0, pool, pool[h], i) ==> Connects(s0, pool, pool[h].vin[i]))
    && (forall h :: h in pool ==> DistinctInputs(pool[h]))
  }

  lemma PoolTx(rules: Rules, s0: Snapshot, pool: Pool, order: seq<Hash>, h: Hash)
    requires PoolOk(rules, s0, pool, order) && h in order
    ensures h in pool && pool[h].hash == h && DistinctInputs(pool[h])
    ensures IsCandidate(rules, pool[h]) ==> forall i :: Reached(s0, pool, pool[h], i) ==> Connects(s0, pool, pool[h].vin[i])
    ensures IsEligible(rules, s0, pool, pool[h]) ==> AllConnect(s0, pool, pool[h].vin)
  {
    if IsEligible(rules, s0, pool, pool[h]) {
      forall i | 0 <= i < |pool[h].vin| ensures Connects(s0, pool, pool[h].vin[i]) {
        assert Reached(s0, pool, pool[h], i);
      }
    }
  }

  // ---------------------------------------------------------------- what a dropped transaction leaves behind

  /** The code has noted the transaction as waiting for input `i`, and drops it at a later input. */
  predicate StaleAt(s0: Snapshot, pool: Pool, tx: Tx, i: int) {
    && Reached(s0, pool, tx, i) && tx.vin[i].hash !in s0
    && IsDropped(s0, pool, tx)
  }

  /** The parents whose list of dependers keeps a pointer to the dropped transaction's entry, which is gone. */
  function StaleOf(s0: Snapshot, pool: Pool, tx: Tx): set<Hash> {
    set i | 0 <= i < |tx.vin| && StaleAt(s0, pool, tx, i) :: tx.vin[i].hash
  }

  /** Over the first `k` transactions of the pool. */
  function Stale(rules: Rules, s0: Snapshot, pool: Pool, order: seq<Hash>, k: nat): set<Hash>
    requires k <= |order|
  {
    if k == 0 then {}
    else
      var h := order[k - 1];
      Stale(rules, s0, pool, order, k - 1) + if h in pool && IsCandidate(rules, pool[h]) then StaleOf(s0, pool, pool[h]) else {}
  }

  /** A pointer to a removed entry is left behind exactly by a dropped transaction that has an earlier parent in the pool. */
  lemma {:induction false} StaleExactly(rules: Rules, s0: Snapshot, pool: Pool, order: seq<Hash>, k: nat, p: Hash)
    requires k <= |order|
    ensures p in Stale(rules, s0, pool, order, k) <==>
      exists n :: 0 <= n < k && order[n] in pool && IsCandidate(rules, pool[order[n]]) && p in StaleOf(s0, pool, pool[order[n]])
  {
    hide IsCandidate, StaleOf;
    if k > 0 {
      StaleExactly(rules, s0, pool, order, k - 1, p);
    }
  }

  /** The input at which the loop gives up. */
  predicate FirstNowhere(s0: Snapshot, pool: Pool, tx: Tx, j: int) {
    0 <= j < |tx.vin| && Nowhere(s0, pool, tx.vin[j]) && forall l :: 0 <= l < j ==> !Nowhere(s0, pool, tx.vin[l])
  }

  lemma {:induction false} FindNowhere(s0: Snapshot, pool: Pool, tx: Tx, n: nat) returns (j: int)
    requires n < |tx.vin| && Nowhere(s0, pool, tx.vin[n])
    ensures FirstNowhere(s0, pool, tx, j) && j <= n
  {
    j := 0;
    while !Nowhere(s0, pool, tx.vin[j])
      invariant 0 <= j <= n && forall l :: 0 <= l < j ==> !Nowhere(s0, pool, tx.vin[l])
      decreases n - j
    {
      j := j + 1;
    }
  }

  /** The stale parents are those in the pool, and not in the chain, of the inputs before the first one that is nowhere. */
  lemma StaleMeans(s0: Snapshot, pool: Pool, tx: Tx, j: int, p: Hash)
    requires FirstNowhere(s0, pool, tx, j)
    ensures p in StaleOf(s0, pool, tx) <==> p in pool && p !in s0 && exists i :: 0 <= i < j && tx.vin[i].hash == p
  {
    forall i | 0 <= i < |tx.vin| ensures StaleAt(s0, pool, tx, i) <==> i < j && tx.vin[i].hash !in s0 {
      assert Reached(s0, pool, tx, i) <==> i < j;
    }
    if p in StaleOf(s0, pool, tx) {
      var i :| 0 <= i < |tx.vin| && StaleAt(s0, pool, tx, i) && tx.vin[i].hash == p;
      assert !Nowhere(s0, pool, tx.vin[i]);
    }
    if p in pool && p !in s0 && exists i :: 0 <= i < j && tx.vin[i].hash == p {
      var i :| 0 <= i < j && tx.vin[i].hash == p;
      assert StaleAt(s0, pool, tx, i);
    }
  }

  /** Only a dropped transaction leaves anything behind. */
  lemma StaleIsDropped(s0: Snapshot, pool: Pool, tx: Tx) returns (j: int)
    requires StaleOf(s0, pool, tx) != {}
    ensures FirstNowhere(s0, pool, tx, j)
  {
    var p := SomeElement(StaleOf(s0, pool, tx));
    var n :| 0 <= n < |tx.vin| && Nowhere(s0, pool, tx.vin[n]);
    j := FindNowhere(s0, pool, tx, n);
  }

  /** Two inputs, the first created in the pool and the second nowhere. */
  lemma StaleExample(s0: Snapshot, parent: Tx, child: Tx, out: OutPoint, gone: OutPoint)
    requires parent.hash !in s0 && gone.hash !in s0 && gone.hash != parent.hash && gone.hash != child.hash
    requires child.vin == [out, gone] && out.hash == parent.hash != child.hash
    ensures StaleOf(s0, map[parent.hash := parent, child.hash := child], child) == {parent.hash}
  {
    var pool := map[parent.hash := parent, child.hash := child];
    assert Nowhere(s0, pool, child.vin[1]) && !Nowhere(s0, pool, child.vin[0]);
    assert Reached(s0, pool, child, 0) && StaleAt(s0, pool, child, 0);
    assert !Reached(s0, pool, child, 1);
  }

  // ---------------------------------------------------------------- the order of the queue

  function InputValue(s0: Snapshot, pool: Pool, out: OutPoint): int
    requires Connects(s0, pool, out)
  {
    if out.hash in s0 then s0[out.hash].vout[out.n].value else pool[out.hash].vout[out.n].value
  }

  function TotalIn(s0: Snapshot, pool: Pool, vin: seq<OutPoint>): int
    requires AllConnect(s0, pool, vin)
  {
    if vin == [] then 0 else TotalIn(s0, pool, vin[..|vin| - 1]) + InputValue(s0, pool, vin[|vin| - 1])
  }

  /** The value of the inputs in the chain, weighted with their age. */
  function Age(height: int, s0: Snapshot, pool: Pool, vin: seq<OutPoint>): real
    requires AllConnect(s0, pool, vin)
  {
    if vin == [] then 0.0
    else
      var last := vin[|vin| - 1];
      assert Connects(s0, pool, last);
      Age(height, s0, pool, vin[..|vin| - 1]) +
      if last.hash in s0 then (s0[last.hash].vout[last.n].value * (height - s0[last.hash].height)) as real else 0.0
  }

  /** The place of a transaction in the queue. */
  function Ranked(rules: Rules, s0: Snapshot, pool: Pool, tx: Tx): Candidate
    requires AllConnect(s0, pool, tx.vin)
  {
    Candidate(rules.computePriority(tx, Age(rules.height, s0, pool, tx.vin)) + rules.priorityDelta(tx.hash),
              FeeRate(TotalIn(s0, pool, tx.vin) + rules.feeDelta(tx.hash) - SumOut(tx.vout), rules.size(tx)), tx)
  }

  /** A transaction of the pool, under its proper rank. */
  predicate IsRanked(rules: Rules, s0: Snapshot, pool: Pool, c: Candidate) {
    && c.tx.hash in pool && pool[c.tx.hash] == c.tx
    && AllConnect(s0, pool, c.tx.vin) && c == Ranked(rules, s0, pool, c.tx)
  }

  // ---------------------------------------------------------------- fee rates

  /** `CFeeRate`: the fee per thousand bytes. The division is one of unsigned 64-bit words, as the size is unsigned. */
  function FeeRate(fee: int, size: nat): int {
    if size == 0 then 0
    else
      var q := fee * 1000 % WORD / size;
      if q < WORD / 2 then q else q - WORD
  }

  /** Does the fee times a thousand fit a signed word? */
  predicate InRange(fee: int) {
    -(WORD / 2) <= fee * 1000 < WORD / 2
  }

  /** For sizes of two and more, the rate of a negative fee is that of a huge positive one. */
  lemma FeeRateIs(fee: int, size: nat)
    requires InRange(fee)
    ensures size == 0 ==> FeeRate(fee, size) == 0
    ensures size == 1 ==> FeeRate(fee, size) == fee * 1000
    ensures size >= 2 ==> FeeRate(fee, size) == (fee * 1000 + if fee < 0 then WORD else 0) / size
  {
    var u := fee * 1000 + if fee < 0 then WORD else 0;
    assert fee * 1000 % WORD == u by {
      if fee < 0 {
        assert (fee * 1000 + WORD) % WORD == fee * 1000 % WORD;
      }
    }
    if size == 1 {
      assert u / 1 == u;
    } else if size >= 2 {
      Halved(u, size);
    }
  }

  lemma Halved(u: nat, size: nat)
    requires u < WORD && size >= 2
    ensures u / size < WORD / 2
  {
    var q := u / size;
    assert u == q * size + u % size;
    P.MulLe(q, q, 2, size);
  }

  /**
   * Exactly when a higher fee gives no lower rate: the fees have the same sign, or the size is 0 or 1, or the division
   * happens to bring the two rates together. Otherwise the lower fee, which is negative, has the higher rate.
   */
  lemma FeeRateOrder(a: int, b: int, size: nat)
    requires a <= b && InRange(a) && InRange(b)
    ensures FeeRate(a, size) <= FeeRate(b, size) <==>
      (size <= 1 || (a < 0 <==> b < 0) || (a * 1000 + WORD) / size == b * 1000 / size)
    ensures size >= 2 && a < 0 <= b ==> FeeRate(a, size) >= FeeRate(b, size)
  {
    hide FeeRate;
    FeeRateIs(a, size);
    FeeRateIs(b, size);
    if size >= 2 {
      if a < 0 <= b {
        Quotients(b * 1000, a * 1000 + WORD, size);
      } else if b < 0 {
        Quotients(a * 1000 + WORD, b * 1000 + WORD, size);
      } else {
        Quotients(a * 1000, b * 1000, size);
      }
    }
  }

  /** A negative fee, which a negative adjustment can bring about, ranks above every fee, unless the two are some 2^64 / 1000 apart. */
  lemma NegativeFeeRanksHigh(a: int, b: int, size: nat)
    requires a < 0 <= b && InRange(a) && InRange(b) && 2 <= size <= WORD - 1000 * (b - a)
    ensures FeeRate(a, size) > FeeRate(b, size)
  {
    hide FeeRate;
    FeeRateIs(a, size);
    FeeRateIs(b, size);
    var x := b * 1000;
    Quotients(x + size, a * 1000 + WORD, size);
    assert (x + size) / size == x / size + 1 by { OneMore(x, size); }
  }

  lemma OneMore(x: nat, d: nat)
    requires d > 0
    ensures (x + d) / d == x / d + 1
  {
    assert x + d == (x / d + 1) * d + x % d;
    P.DivMod(x / d + 1, x % d, d);
  }

  lemma Quotients(x: nat, y: nat, d: nat)
    requires x <= y && d > 0
    ensures x / d <= y / d
  {
    Ordered(x / d, x % d, y / d, y % d, d);
  }

  lemma Ordered(q: nat, a: nat, r: nat, b: nat, d: nat)
    requires q * d + a <= r * d + b && b < d
    ensures q <= r
  {
    if r < q {
      P.MulGap(r, q, d);
      assert false;
    }
  }
}
