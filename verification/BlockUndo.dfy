/**
 * Connecting and disconnecting a block's transactions (`UpdateCoins`, `ConnectBlock`,
 * `DisconnectBlock`, src/main.cpp; `CCoins::Spend`, src/coins.cpp; src/undo.h).
 * The methods run on the cache stack; the functions say what they do to the set of unspent coins.
 */
module BlockUndo {
  import opened Common
  import opened Coins
  import opened CoinsCache

  datatype TxInUndo = TxInUndo(txout: TxOut, coinBase: bool, height: int, version: int)

  // ---------------------------------------------------------------- on coin records

  /** `CCoins::Spend`, with the undo record it fills in. */
  function Spend(c: Coins, n: nat): (r: Option<(Coins, TxInUndo)>)
    ensures r.Some? <==> c.IsAvailable(n)
    ensures r.Some? ==> r.value.0.Cleaned()
                        && forall k: nat :: r.value.0.IsAvailable(k) <==> k != n && c.IsAvailable(k)
  {
    if n >= |c.vout| || c.vout[n].IsNull() then None
    else
      var spent := c.(vout := c.vout[n := NullOut]).Cleanup();
      assert forall k: nat :: c.(vout := c.vout[n := NullOut]).IsAvailable(k) <==> k != n && c.IsAvailable(k);
      var u := TxInUndo(c.vout[n], false, 0, 0);
      Some((spent, if spent.vout == [] then TxInUndo(c.vout[n], c.coinBase, c.height, c.version) else u))
  }

  function Nulled(o: TxOut): TxOut {
    if o.IsUnspendable() then NullOut else o
  }

  function ClearUnspendable(c: Coins): Coins {
    c.(vout := seq(|c.vout|, i requires 0 <= i < |c.vout| => Nulled(c.vout[i]))).Cleanup()
  }

  /** `CCoins::FromTx`. */
  function FromTx(tx: Tx, height: int): Coins {
    ClearUnspendable(Coins(tx.coinBase, tx.vout, height, tx.version))
  }

  /** `operator==` on coins: all fully spent records are equal. */
  predicate CoinsEq(a: Coins, b: Coins) {
    (a.IsPruned() && b.IsPruned()) || a == b
  }

  /** `vout.resize(n + 1)` when the vector is shorter than that. */
  function Resized(vout: seq<TxOut>, n: nat): seq<TxOut> {
    if |vout| < n + 1 then vout + seq(n + 1 - |vout|, _ => NullOut) else vout
  }

  /** The inner step of `DisconnectBlock`: put one spent output back, and whether the undo data fitted. */
  function Unspend(c: Coins, n: nat, u: TxInUndo): (Coins, bool) {
    var fits := if u.height != 0 then c.IsPruned() else !c.IsPruned();
    var c1 := if u.height != 0 then Coins(u.coinBase, [], u.height, u.version) else c;
    (c1.(vout := Resized(c1.vout, n)[n := u.txout]), fits && !c1.IsAvailable(n))
  }

  /** What every record of the unspent set satisfies: some output left, spent ones blanked, mined above genesis. */
  predicate Sound(c: Coins) {
    && c.Cleaned() && !c.IsPruned() && c.height != 0
    && forall i :: 0 <= i < |c.vout| && c.vout[i].IsNull() ==> c.vout[i] == NullOut
  }

  /** Trimming after a spend drops only blanks, and resizing puts exactly those back. */
  lemma ResizedTrimmed(c: Coins, n: nat)
    requires Sound(c) && c.IsAvailable(n)
    ensures var nulled := c.vout[n := NullOut];
            |Trimmed(nulled)| <= |c.vout| && Resized(Trimmed(nulled), n) == nulled
  {
    var nulled := c.vout[n := NullOut];
    TrimmedKeepsAvailable(nulled);
    var t := Trimmed(nulled);
    if n < |c.vout| - 1 {
      assert !nulled[|nulled| - 1].IsNull();
      assert t == nulled;
    } else {
      assert |t| <= n;
      assert forall i :: |t| <= i < |nulled| ==> nulled[i] == NullOut;
    }
  }

  /** Undoing a spend gives back the very same record, length of the output vector included. */
  lemma UnspendSpend(c: Coins, n: nat)
    requires Sound(c) && c.IsAvailable(n)
    ensures var (spent, u) := Spend(c, n).value;
            (spent.IsPruned() || Sound(spent)) && Unspend(if spent.IsPruned() then ClearedCoins else spent, n, u) == (c, true)
  {
    hide Resized;
    var nulled := c.vout[n := NullOut];
    ResizedTrimmed(c, n);
    var (spent, u) := Spend(c, n).value;
    assert spent.vout == Trimmed(nulled) <= nulled;
    assert spent.IsPruned() <==> spent.vout == [];
    assert spent.vout == [] <==> u.height != 0;
    assert nulled[n := c.vout[n]] == c.vout;
  }

  // ---------------------------------------------------------------- on the unspent set

  predicate Spendable(s: Snapshot, out: OutPoint) {
    out.hash in s && s[out.hash].IsAvailable(out.n)
  }

  function SpendOut(s: Snapshot, out: OutPoint): (Snapshot, TxInUndo)
    requires Spendable(s, out)
  {
    var (c, u) := Spend(s[out.hash], out.n).value;
    (Put(s, out.hash, c), u)
  }

  predicate AllSpendable(s: Snapshot, vin: seq<OutPoint>)
    decreases |vin|
  {
    vin == [] || (Spendable(s, vin[0]) && AllSpendable(SpendOut(s, vin[0]).0, vin[1..]))
  }

  function SpendAll(s: Snapshot, vin: seq<OutPoint>): (r: (Snapshot, seq<TxInUndo>))
    requires AllSpendable(s, vin)
    ensures |r.1| == |vin|
    decreases |vin|
  {
    if vin == [] then (s, [])
    else
      var (s1, u) := SpendOut(s, vin[0]);
      var (s2, us) := SpendAll(s1, vin[1..]);
      (s2, [u] + us)
  }

  predicate Connectable(s: Snapshot, tx: Tx) {
    tx.coinBase || AllSpendable(s, tx.vin)
  }

  /** `UpdateCoins`: spend the inputs, then record the outputs. */
  function ConnectTx(s: Snapshot, tx: Tx, height: int): (Snapshot, seq<TxInUndo>)
    requires Connectable(s, tx)
  {
    var (s1, us) := if tx.coinBase then (s, []) else SpendAll(s, tx.vin);
    (Put(s1, tx.hash, FromTx(tx, height)), us)
  }

  function Coin(s: Snapshot, txid: Hash): Coins {
    if txid in s then s[txid] else ClearedCoins
  }

  function UnspendOut(s: Snapshot, out: OutPoint, u: TxInUndo): (Snapshot, bool) {
    var (c, ok) := Unspend(Coin(s, out.hash), out.n, u);
    (Put(s, out.hash, c), ok)
  }

  /** Restore the inputs of one transaction, last input first. */
  function UnspendAll(s: Snapshot, vin: seq<OutPoint>, us: seq<TxInUndo>): (Snapshot, bool)
    requires |vin| == |us|
    decreases |vin|
  {
    if vin == [] then (s, true)
    else
      var (s1, ok1) := UnspendAll(s, vin[1..], us[1..]);
      var (s2, ok2) := UnspendOut(s1, vin[0], us[0]);
      (s2, ok1 && ok2)
  }

  /** Whether the coin found for a transaction is what the block says it created. */
  predicate OutsMatch(c: Coins, tx: Tx, height: int) {
    var want := FromTx(tx, height);
    var found := ClearUnspendable(c);
    CoinsEq(if want.version < 0 then found.(version := want.version) else found, want)
  }

  /** Undo one transaction; a coinbase has no inputs to restore. */
  function DisconnectTx(s: Snapshot, tx: Tx, us: seq<TxInUndo>, height: int): (Snapshot, bool)
    requires tx.coinBase || |us| == |tx.vin|
  {
    var s1 := s - {tx.hash};
    var ok := OutsMatch(Coin(s, tx.hash), tx, height);
    if tx.coinBase then (s1, ok)
    else
      var (s2, ok2) := UnspendAll(s1, tx.vin, us);
      (s2, ok && ok2)
  }

  predicate SoundSet(s: Snapshot) {
    forall t :: t in s ==> Sound(s[t])
  }

  /** No output carries the value that marks a spent one (negative values are rejected by `CheckTransaction`). */
  predicate ProperOutputs(tx: Tx) {
    forall i :: 0 <= i < |tx.vout| ==> !tx.vout[i].IsNull()
  }

  lemma PutCleaned(s: Snapshot, txid: Hash, c: Coins)
    requires c.Cleaned()
    ensures Put(s, txid, c) == if c.IsPruned() then s - {txid} else s[txid := c]
  {
    TrimmedOfPadded(c.vout, []);
    assert c.vout + [] == c.vout;
  }

  lemma UnspendSpendOut(s: Snapshot, out: OutPoint)
    requires SoundSet(s) && Spendable(s, out)
    ensures var (s1, u) := SpendOut(s, out);
            SoundSet(s1) && s1.Keys <= s.Keys && UnspendOut(s1, out, u) == (s, true)
  {
    var c := s[out.hash];
    UnspendSpend(c, out.n);
    var (spent, u) := Spend(c, out.n).value;
    PutCleaned(s, out.hash, spent);
    var (s1, _) := SpendOut(s, out);
    PutCleaned(s1, out.hash, c);
    assert Put(s1, out.hash, c) == s;
  }

  lemma {:induction false} UnspendSpendAll(s: Snapshot, vin: seq<OutPoint>)
    requires SoundSet(s) && AllSpendable(s, vin)
    ensures var (s1, us) := SpendAll(s, vin);
            SoundSet(s1) && s1.Keys <= s.Keys && UnspendAll(s1, vin, us) == (s, true)
    decreases |vin|
  {
    if vin != [] {
      UnspendSpendOut(s, vin[0]);
      UnspendSpendAll(SpendOut(s, vin[0]).0, vin[1..]);
      var (s1, u) := SpendOut(s, vin[0]);
      var (s2, us) := SpendAll(s1, vin[1..]);
      assert ([u] + us)[1..] == us;
    }
  }

  lemma FromTxSound(tx: Tx, height: int)
    requires ProperOutputs(tx) && height != 0
    ensures var c := FromTx(tx, height);
            && c.Cleaned() && (c.IsPruned() || Sound(c))
            && ClearUnspendable(c) == c && OutsMatch(c, tx, height)
            && (c.IsPruned() ==> OutsMatch(ClearedCoins, tx, height))
  {
    var c := FromTx(tx, height);
    var nulled := seq(|tx.vout|, i requires 0 <= i < |tx.vout| => Nulled(tx.vout[i]));
    assert c.vout <= nulled;
    assert forall i :: 0 <= i < |c.vout| ==> c.vout[i] == nulled[i];
    assert forall i :: 0 <= i < |c.vout| ==> Nulled(c.vout[i]) == c.vout[i];
    assert seq(|c.vout|, i requires 0 <= i < |c.vout| => Nulled(c.vout[i])) == c.vout;
    PutCleaned(map[], 0, c);
    TrimmedOfPadded(c.vout, []);
    assert c.vout + [] == c.vout;
  }

  /** Disconnecting a transaction that was just connected restores the unspent set and reports a clean undo. */
  lemma DisconnectConnectTx(s: Snapshot, tx: Tx, height: int)
    requires SoundSet(s) && Connectable(s, tx) && ProperOutputs(tx) && height != 0
    requires tx.hash !in s
    ensures var (s1, us) := ConnectTx(s, tx, height);
            && SoundSet(s1) && s1.Keys <= s.Keys + {tx.hash}
            && (tx.coinBase || |us| == |tx.vin|)
            && DisconnectTx(s1, tx, us, height) == (s, true)
  {
    hide OutsMatch;
    hide UnspendAll;
    hide SpendAll;
    hide Sound;
    FromTxSound(tx, height);
    var outs := FromTx(tx, height);
    var (mid, us) := if tx.coinBase then (s, []) else SpendAll(s, tx.vin);
    if !tx.coinBase {
      UnspendSpendAll(s, tx.vin);
    }
    PutCleaned(mid, tx.hash, outs);
    var s1 := Put(mid, tx.hash, outs);
    assert s1 - {tx.hash} == mid;
  }

  // ---------------------------------------------------------------- whole blocks

  predicate ConnectableBlock(s: Snapshot, txs: seq<Tx>, height: int)
    decreases |txs|
  {
    txs == [] || (Connectable(s, txs[0]) && ConnectableBlock(ConnectTx(s, txs[0], height).0, txs[1..], height))
  }

  /** The transactions of a block, in order, with one undo list each. */
  function ConnectBlock(s: Snapshot, txs: seq<Tx>, height: int): (r: (Snapshot, seq<seq<TxInUndo>>))
    requires ConnectableBlock(s, txs, height)
    ensures |r.1| == |txs|
    decreases |txs|
  {
    if txs == [] then (s, [])
    else
      var (s1, us) := ConnectTx(s, txs[0], height);
      var (s2, uss) := ConnectBlock(s1, txs[1..], height);
      (s2, [us] + uss)
  }

  /** `DisconnectBlock`: undo the transactions in reverse order. */
  function DisconnectBlock(s: Snapshot, txs: seq<Tx>, uss: seq<seq<TxInUndo>>, height: int): (Snapshot, bool)
    requires |txs| == |uss| && forall i :: 0 <= i < |txs| ==> txs[i].coinBase || |uss[i]| == |txs[i].vin|
    decreases |txs|
  {
    if txs == [] then (s, true)
    else
      var (s1, ok1) := DisconnectBlock(s, txs[1..], uss[1..], height);
      var (s2, ok2) := DisconnectTx(s1, txs[0], uss[0], height);
      (s2, ok1 && ok2)
  }

  /** The overwrite rule (BIP30) that `ConnectBlock` enforces, and no transaction twice in the block. */
  predicate NoOverwrite(s: Snapshot, txs: seq<Tx>) {
    && (forall i :: 0 <= i < |txs| ==> txs[i].hash !in s)
    && (forall i, j :: 0 <= i < j < |txs| ==> txs[i].hash != txs[j].hash)
  }

  /** A block that was connected can be disconnected again, exactly and without complaints. */
  lemma {:induction false} DisconnectConnectBlock(s: Snapshot, txs: seq<Tx>, height: int)
    requires SoundSet(s) && height != 0 && ConnectableBlock(s, txs, height)
    requires forall i :: 0 <= i < |txs| ==> ProperOutputs(txs[i])
    requires NoOverwrite(s, txs)
    ensures var (s1, uss) := ConnectBlock(s, txs, height);
            && SoundSet(s1)
            && (forall i :: 0 <= i < |txs| ==> txs[i].coinBase || |uss[i]| == |txs[i].vin|)
            && DisconnectBlock(s1, txs, uss, height) == (s, true)
    decreases |txs|
  {
    hide DisconnectTx;
    hide ConnectTx;
    hide Sound;
    if txs != [] {
      DisconnectConnectTx(s, txs[0], height);
      var (s1, us) := ConnectTx(s, txs[0], height);
      DisconnectConnectBlock(s1, txs[1..], height);
      var (s2, uss) := ConnectBlock(s1, txs[1..], height);
      assert ([us] + uss)[1..] == uss;
    }
  }

  // ---------------------------------------------------------------- undoing over what the caches still have

  /** What a cache may still have of a record that is fully spent: no outputs, but the other fields. */
  predicate IsLeftover(c: Coins) {
    c.vout == []
  }

  predicate AreLeftovers(cs: seq<Coins>) {
    forall i :: 0 <= i < |cs| ==> IsLeftover(cs[i])
  }

  function Found(s: Snapshot, txid: Hash, left: Coins): Coins {
    if txid in s then s[txid] else left
  }

  /** As `UnspendOut`, but a record that the set does not have is taken from what is left of it. */
  function UnspendOver(s: Snapshot, out: OutPoint, u: TxInUndo, left: Coins): (Snapshot, bool) {
    var (c, ok) := Unspend(Found(s, out.hash, left), out.n, u);
    (Put(s, out.hash, c), ok)
  }

  function UnspendAllOver(s: Snapshot, vin: seq<OutPoint>, us: seq<TxInUndo>, lefts: seq<Coins>): (Snapshot, bool)
    requires |vin| == |us| == |lefts|
    decreases |vin|
  {
    if vin == [] then (s, true)
    else
      var (s1, ok1) := UnspendAllOver(s, vin[1..], us[1..], lefts[1..]);
      var (s2, ok2) := UnspendOver(s1, vin[0], us[0], lefts[0]);
      (s2, ok1 && ok2)
  }

  /** A coinbase needs no undo data; any other transaction needs as many as it has inputs. */
  predicate Fits(tx: Tx, us: seq<TxInUndo>) {
    tx.coinBase || |us| == |tx.vin|
  }

  predicate AllFit(txs: seq<Tx>, uss: seq<seq<TxInUndo>>) {
    |txs| == |uss| && forall i :: 0 <= i < |txs| ==> Fits(txs[i], uss[i])
  }

  function DisconnectTxOver(s: Snapshot, tx: Tx, us: seq<TxInUndo>, height: int, lefts: seq<Coins>): (Snapshot, bool)
    requires Fits(tx, us) && |lefts| == |us|
  {
    var s1 := s - {tx.hash};
    var ok := OutsMatch(Coin(s, tx.hash), tx, height);
    if tx.coinBase then (s1, ok)
    else
      var (s2, ok2) := UnspendAllOver(s1, tx.vin, us, lefts);
      (s2, ok && ok2)
  }

  /** One leftover for every piece of undo data. */
  predicate Covers(uss: seq<seq<TxInUndo>>, left: seq<seq<Coins>>) {
    |left| == |uss| && forall i :: 0 <= i < |uss| ==> |left[i]| == |uss[i]| && AreLeftovers(left[i])
  }

  function DisconnectBlockOver(s: Snapshot, txs: seq<Tx>, uss: seq<seq<TxInUndo>>, height: int, left: seq<seq<Coins>>): (Snapshot, bool)
    requires AllFit(txs, uss) && Covers(uss, left)
    decreases |txs|
  {
    if txs == [] then (s, true)
    else
      var (s1, ok1) := DisconnectBlockOver(s, txs[1..], uss[1..], height, left[1..]);
      var (s2, ok2) := DisconnectTxOver(s1, txs[0], uss[0], height, left[0]);
      (s2, ok1 && ok2)
  }

  lemma UnspendOverSame(s: Snapshot, out: OutPoint, u: TxInUndo, left: Coins)
    requires IsLeftover(left)
    ensures UnspendOver(s, out, u, left).1 == UnspendOut(s, out, u).1
    ensures UnspendOut(s, out, u).1 ==> UnspendOver(s, out, u, left) == UnspendOut(s, out, u)
  {
    hide Put, Resized;
  }

  lemma {:induction false} UnspendAllOverSame(s: Snapshot, vin: seq<OutPoint>, us: seq<TxInUndo>, lefts: seq<Coins>)
    requires |vin| == |us| == |lefts| && AreLeftovers(lefts)
    ensures UnspendAllOver(s, vin, us, lefts).1 == UnspendAll(s, vin, us).1
    ensures UnspendAll(s, vin, us).1 ==> UnspendAllOver(s, vin, us, lefts) == UnspendAll(s, vin, us)
    decreases |vin|
  {
    hide UnspendOver, UnspendOut;
    if vin != [] {
      UnspendAllOverSame(s, vin[1..], us[1..], lefts[1..]);
      UnspendOverSame(UnspendAll(s, vin[1..], us[1..]).0, vin[0], us[0], lefts[0]);
    }
  }

  lemma DisconnectTxOverSame(s: Snapshot, tx: Tx, us: seq<TxInUndo>, height: int, lefts: seq<Coins>)
    requires Fits(tx, us) && |lefts| == |us| && AreLeftovers(lefts)
    ensures DisconnectTxOver(s, tx, us, height, lefts).1 == DisconnectTx(s, tx, us, height).1
    ensures DisconnectTx(s, tx, us, height).1 ==> DisconnectTxOver(s, tx, us, height, lefts) == DisconnectTx(s, tx, us, height)
  {
    hide UnspendAllOver, UnspendAll, OutsMatch;
    if !tx.coinBase {
      UnspendAllOverSame(s - {tx.hash}, tx.vin, us, lefts);
    }
  }

  /** What is left of spent records shows only in an undo that is reported as unclean. */
  lemma {:induction false} LeftoversDoNotMatter(s: Snapshot, txs: seq<Tx>, uss: seq<seq<TxInUndo>>, height: int, left: seq<seq<Coins>>)
    requires AllFit(txs, uss) && Covers(uss, left)
    ensures DisconnectBlockOver(s, txs, uss, height, left).1 == DisconnectBlock(s, txs, uss, height).1
    ensures DisconnectBlock(s, txs, uss, height).1 ==>
      DisconnectBlockOver(s, txs, uss, height, left) == DisconnectBlock(s, txs, uss, height)
    decreases |txs|
  {
    hide DisconnectTxOver, DisconnectTx, AreLeftovers;
    if txs != [] {
      LeftoversDoNotMatter(s, txs[1..], uss[1..], height, left[1..]);
      DisconnectTxOverSame(DisconnectBlock(s, txs[1..], uss[1..], height).0, txs[0], uss[0], height, left[0]);
    }
  }

  // ---------------------------------------------------------------- the code, on the cache stack

  /** A view ready for a client: consistent, some cache on top, no modifier outstanding, showing `s`. */
  ghost predicate Ready(view: CoinsViewStack, s: Snapshot)
    reads view
  {
    view.Valid() && view.caches != [] && view.modifier.None? && Shows(view.db, view.caches, s)
  }

  lemma ShowsPut(db: Database, a: seq<Cache>, b: seq<Cache>, s: Snapshot, txid: Hash, c: Coins)
    requires Shows(db, a, s)
    requires forall t :: View(db, b, t) == if t == txid then Abs(c.Cleanup()) else View(db, a, t)
    ensures Shows(db, b, Put(s, txid, c))
  {
    forall t ensures View(db, b, t) == Lookup(Put(s, txid, c), t) {
      assert View(db, a, t) == Lookup(s, t);
    }
  }

  /** `inputs.ModifyCoins(out.hash)->Spend(out, undo)`. */
  method SpendInput(view: CoinsViewStack, out: OutPoint, ghost s: Snapshot) returns (u: TxInUndo)
    requires Ready(view, s) && Spendable(s, out)
    modifies view
    ensures Ready(view, SpendOut(s, out).0) && u == SpendOut(s, out).1
    ensures view.db == old(view.db) && |view.caches| == |old(view.caches)|
  {
    assert View(view.db, view.caches, out.hash) == Lookup(s, out.hash);
    ghost var n := |view.caches|;
    var c := view.ModifyCoins(out.hash);
    assert view.caches[..n] == view.caches && old(view.caches)[..n] == old(view.caches);
    assert SameView(view.db, old(view.caches), view.db, view.caches);
    assert c == s[out.hash];
    ghost var mid := view.caches;
    assert Shows(view.db, mid, s) by {
      forall t ensures View(view.db, mid, t) == Lookup(s, t) {
        assert View(view.db, old(view.caches), t) == View(view.db, mid, t);
      }
    }
    var r := Spend(c, out.n);
    u := r.value.1;
    view.ReleaseModifier(r.value.0);
    ShowsPut(view.db, mid, view.caches, s, out.hash, r.value.0);
  }

  // ---------------------------------------------------------------- what a client of the view sees

  /** Does a record have output `n`? */
  predicate Has(c: Option<Coins>, n: nat) {
    c.Some? && n < |c.value.vout| && c.value.vout[n].value != -1
  }

  /** An output that can ever be spent: it is not null, and its script does not start with OP_RETURN. */
  predicate Lasting(o: TxOut) {
    o.value != -1 && (o.script == [] || o.script[0] != 0x6a)
  }

  /** The record of a transaction that was just connected; there is none if it has no lasting output. */
  ghost predicate RecordOf(c: Option<Coins>, tx: Tx, height: int) {
    && (c.Some? <==> exists n :: 0 <= n < |tx.vout| && Lasting(tx.vout[n]))
    && (c.Some? ==> c.value.coinBase == tx.coinBase && c.value.height == height && c.value.version == tx.version)
    && (forall n: nat :: Has(c, n) <==> n < |tx.vout| && Lasting(tx.vout[n]))
    && (forall n: nat :: Has(c, n) ==> c.value.vout[n] == tx.vout[n])
  }

  /** The record of another transaction loses exactly the outputs that are spent, and goes with its last one. */
  ghost predicate Loses(before: Option<Coins>, after: Option<Coins>, txid: Hash, vin: seq<OutPoint>) {
    && (forall n: nat :: Has(after, n) <==> Has(before, n) && OutPoint(txid, n) !in vin)
    && (forall n: nat :: Has(after, n) ==> after.value.vout[n] == before.value.vout[n])
    && (after.Some? ==> before.Some? && after.value == before.value.(vout := after.value.vout))
    && (after.Some? && before.Some? ==> exists n: nat :: Has(after, n))
  }

  ghost predicate SomeLeft(s: Snapshot) {
    forall t :: t in s ==> !s[t].IsPruned()
  }

  lemma ShowsLeft(db: Database, caches: seq<Cache>, s: Snapshot)
    requires Shows(db, caches, s)
    ensures SomeLeft(s)
  {
    forall t | t in s ensures !s[t].IsPruned() {
      ViewIsLeft(db, caches, t);
      assert View(db, caches, t) == Lookup(s, t);
    }
  }

  lemma {:induction false} ViewIsLeft(db: Database, caches: seq<Cache>, t: Hash)
    ensures View(db, caches, t).Some? ==> !View(db, caches, t).value.IsPruned()
    decreases |caches|
  {
    if caches != [] {
      ViewIsLeft(db, caches[..|caches| - 1], t);
    }
  }

  lemma SpendLoses(s: Snapshot, out: OutPoint, txid: Hash)
    requires Spendable(s, out) && SomeLeft(s)
    ensures SomeLeft(SpendOut(s, out).0)
    ensures Loses(Lookup(s, txid), Lookup(SpendOut(s, out).0, txid), txid, [out])
  {
    var (c, _) := Spend(s[out.hash], out.n).value;
    var s1 := SpendOut(s, out).0;
    PutCleaned(s, out.hash, c);
    if txid == out.hash {
      var before, after := Lookup(s, txid), Lookup(s1, txid);
      TrimmedKeepsAvailable(s[txid].vout[out.n := NullOut]);
      forall n: nat ensures Has(after, n) <==> Has(before, n) && OutPoint(txid, n) !in [out] {
        assert c.IsAvailable(n) <==> n != out.n && s[txid].IsAvailable(n);
      }
      if after.Some? {
        var n :| 0 <= n < |c.vout| && !c.vout[n].IsNull();
        assert Has(after, n);
      }
    } else if txid in s {
      LeftHas(s[txid]);
    }
  }

  lemma LeftHas(c: Coins)
    requires !c.IsPruned()
    ensures exists n: nat :: Has(Some(c), n)
  {
    var n :| 0 <= n < |c.vout| && !c.vout[n].IsNull();
    assert Has(Some(c), n);
  }

  lemma LosesTwice(a: Option<Coins>, b: Option<Coins>, c: Option<Coins>, txid: Hash, out: OutPoint, vin: seq<OutPoint>)
    requires vin != [] && vin[0] == out && Loses(a, b, txid, [out]) && Loses(b, c, txid, vin[1..])
    ensures Loses(a, c, txid, vin)
  {
    assert vin == [out] + vin[1..];
    forall n: nat ensures Has(c, n) <==> Has(a, n) && OutPoint(txid, n) !in vin {
      assert Has(b, n) <==> Has(a, n) && OutPoint(txid, n) !in [out];
      assert Has(c, n) <==> Has(b, n) && OutPoint(txid, n) !in vin[1..];
    }
  }

  lemma {:induction false} SpendAllLoses(s: Snapshot, vin: seq<OutPoint>, txid: Hash)
    requires AllSpendable(s, vin) && SomeLeft(s)
    ensures SomeLeft(SpendAll(s, vin).0) && Loses(Lookup(s, txid), Lookup(SpendAll(s, vin).0, txid), txid, vin)
    decreases |vin|
  {
    hide SpendOut, Loses, Spendable;
    if vin == [] {
      LosesNothing(s, txid);
    } else {
      SpendLoses(s, vin[0], txid);
      var s1 := SpendOut(s, vin[0]).0;
      SpendAllLoses(s1, vin[1..], txid);
      LosesTwice(Lookup(s, txid), Lookup(s1, txid), Lookup(SpendAll(s, vin).0, txid), txid, vin[0], vin);
    }
  }

  /**
   * The undo record of input `i`: the output it spends, and with the last output of a transaction to go also where that
   * transaction came from.
   */
  ghost predicate UndoOf(before: Option<Coins>, vin: seq<OutPoint>, i: nat, u: TxInUndo) {
    && i < |vin| && Has(before, vin[i].n) && u.txout == before.value.vout[vin[i].n]
    && (if forall n: nat :: Has(before, n) ==> OutPoint(vin[i].hash, n) in vin[..i + 1]
        then u.coinBase == before.value.coinBase && u.height == before.value.height && u.version == before.value.version
        else !u.coinBase && u.height == 0 && u.version == 0)
  }

  lemma SpendUndo(s: Snapshot, out: OutPoint, vin: seq<OutPoint>)
    requires Spendable(s, out) && vin != [] && vin[0] == out
    ensures UndoOf(Lookup(s, out.hash), vin, 0, SpendOut(s, out).1)
  {
    var c := s[out.hash];
    var (spent, u) := Spend(c, out.n).value;
    assert vin[..1] == [out];
    assert spent.vout == [] <==> forall n: nat :: !spent.IsAvailable(n) by { NoneLeft(spent); }
    if forall n: nat :: Has(Some(c), n) ==> OutPoint(out.hash, n) in vin[..1] {
      forall n: nat ensures !spent.IsAvailable(n) {
        assert c.IsAvailable(n) ==> Has(Some(c), n);
      }
    } else {
      var n: nat :| Has(Some(c), n) && OutPoint(out.hash, n) !in vin[..1];
      assert spent.IsAvailable(n);
    }
  }

  lemma NoneLeft(c: Coins)
    requires c.Cleaned()
    ensures c.vout == [] <==> forall n: nat :: !c.IsAvailable(n)
  {
    if c.vout != [] {
      assert c.IsAvailable(|c.vout| - 1);
    }
  }

  lemma UndoLater(a: Option<Coins>, b: Option<Coins>, vin: seq<OutPoint>, i: nat, u: TxInUndo)
    requires 0 < i < |vin| && Loses(a, b, vin[i].hash, [vin[0]]) && UndoOf(b, vin[1..], i - 1, u)
    ensures UndoOf(a, vin, i, u)
  {
    var out := vin[i];
    assert vin[1..][i - 1] == out;
    assert vin[..i + 1] == [vin[0]] + vin[1..][..i];
    assert Has(a, out.n) && Has(b, out.n);
    if forall n: nat :: Has(b, n) ==> OutPoint(out.hash, n) in vin[1..][..i] {
      forall n: nat | Has(a, n) ensures OutPoint(out.hash, n) in vin[..i + 1] {
        assert !Has(b, n) ==> OutPoint(out.hash, n) in [vin[0]];
      }
    } else {
      var n: nat :| Has(b, n) && OutPoint(out.hash, n) !in vin[1..][..i];
      assert Has(a, n) && OutPoint(out.hash, n) !in [vin[0]];
    }
  }

  /** Every undo record of a transaction's inputs, against the set before the transaction. */
  lemma {:induction false} SpendAllUndo(s: Snapshot, vin: seq<OutPoint>, i: nat)
    requires AllSpendable(s, vin) && SomeLeft(s) && i < |vin|
    ensures UndoOf(Lookup(s, vin[i].hash), vin, i, SpendAll(s, vin).1[i])
    decreases |vin|
  {
    hide SpendOut, Loses, Spendable, UndoOf;
    if i == 0 {
      SpendUndo(s, vin[0], vin);
    } else {
      var s1 := SpendOut(s, vin[0]).0;
      SpendLoses(s, vin[0], vin[i].hash);
      SpendAllUndo(s1, vin[1..], i - 1);
      UndoLater(Lookup(s, vin[i].hash), Lookup(s1, vin[i].hash), vin, i, SpendAll(s, vin).1[i]);
    }
  }

  lemma LosesNothing(s: Snapshot, txid: Hash)
    requires SomeLeft(s)
    ensures Loses(Lookup(s, txid), Lookup(s, txid), txid, [])
  {
    if txid in s {
      LeftHas(s[txid]);
    }
  }

  lemma FromTxRecord(tx: Tx, height: int)
    ensures RecordOf(Abs(FromTx(tx, height)), tx, height)
  {
    var c := FromTx(tx, height);
    var nulled := seq(|tx.vout|, i requires 0 <= i < |tx.vout| => Nulled(tx.vout[i]));
    TrimmedKeepsAvailable(nulled);
    assert c.vout == Trimmed(nulled) <= nulled;
    forall n: nat ensures c.IsAvailable(n) <==> n < |tx.vout| && Lasting(tx.vout[n]) {
      assert n < |tx.vout| ==> nulled[n] == Nulled(tx.vout[n]);
    }
    if c.IsPruned() {
      forall n | 0 <= n < |tx.vout| ensures !Lasting(tx.vout[n]) {
        assert !c.IsAvailable(n);
      }
    } else {
      var n :| 0 <= n < |c.vout| && !c.vout[n].IsNull();
      assert c.IsAvailable(n);
    }
  }

  /** Connecting a transaction, record by record. */
  lemma ConnectRecords(s: Snapshot, tx: Tx, height: int, txid: Hash)
    requires Connectable(s, tx) && SomeLeft(s)
    ensures var r := Lookup(ConnectTx(s, tx, height).0, txid);
            if txid == tx.hash then RecordOf(r, tx, height)
            else Loses(Lookup(s, txid), r, txid, if tx.coinBase then [] else tx.vin)
  {
    hide FromTx, SpendAll, RecordOf, Loses;
    FromTxRecord(tx, height);
    assert FromTx(tx, height).Cleaned() by { FromTxCleaned(tx, height); }
    var s1 := if tx.coinBase then s else SpendAll(s, tx.vin).0;
    PutCleaned(s1, tx.hash, FromTx(tx, height));
    if tx.coinBase {
      LosesNothing(s, txid);
    } else {
      SpendAllLoses(s, tx.vin, txid);
    }
  }

  lemma FromTxCleaned(tx: Tx, height: int)
    ensures FromTx(tx, height).Cleaned()
  {
  }

  /**
   * `UpdateCoins`: the assertion that every spend succeeds holds, and the view moves to `ConnectTx`. What it shows then:
   * for the transaction its lasting outputs, and for every other one what was not spent. The undo data says what was.
   */
  method UpdateCoins(view: CoinsViewStack, tx: Tx, height: int, ghost s: Snapshot) returns (us: seq<TxInUndo>)
    requires Ready(view, s) && Connectable(s, tx)
    modifies view
    ensures Ready(view, ConnectTx(s, tx, height).0) && us == ConnectTx(s, tx, height).1
    ensures RecordOf(View(view.db, view.caches, tx.hash), tx, height)
    ensures forall t :: t != tx.hash ==>
      Loses(View(old(view.db), old(view.caches), t), View(view.db, view.caches, t), t, if tx.coinBase then [] else tx.vin)
    ensures |us| == if tx.coinBase then 0 else |tx.vin|
    ensures forall i :: 0 <= i < |us| ==> UndoOf(View(old(view.db), old(view.caches), tx.vin[i].hash), tx.vin, i, us[i])
    ensures view.db == old(view.db) && |view.caches| == |old(view.caches)|
  {
    hide StackOk, LayerOk, View, SpendOut, Put, FromTx, RecordOf, Loses, UndoOf;
    ShowsLeft(view.db, view.caches, s);
    us := [];
    ghost var cur := s;
    if !tx.coinBase {
      var i := 0;
      assert tx.vin[0..] == tx.vin;
      while i < |tx.vin|
        invariant 0 <= i <= |tx.vin|
        invariant Ready(view, cur) && AllSpendable(cur, tx.vin[i..])
        invariant view.db == old(view.db) && |view.caches| == |old(view.caches)|
        invariant SpendAll(s, tx.vin).0 == SpendAll(cur, tx.vin[i..]).0
        invariant SpendAll(s, tx.vin).1 == us + SpendAll(cur, tx.vin[i..]).1
      {
        assert tx.vin[i..][1..] == tx.vin[i + 1..];
        var u := SpendInput(view, tx.vin[i], cur);
        us := us + [u];
        cur := SpendOut(cur, tx.vin[i]).0;
        i := i + 1;
      }
    }
    var _ := OverwriteCoin(view, tx.hash, FromTx(tx, height), cur);
    forall t
      ensures t == tx.hash ==> RecordOf(View(view.db, view.caches, t), tx, height)
      ensures t != tx.hash ==>
        Loses(View(old(view.db), old(view.caches), t), View(view.db, view.caches, t), t, if tx.coinBase then [] else tx.vin)
    {
      ConnectRecords(s, tx, height, t);
    }
    forall i | 0 <= i < |us| ensures UndoOf(View(old(view.db), old(view.caches), tx.vin[i].hash), tx.vin, i, us[i]) {
      SpendAllUndo(s, tx.vin, i);
    }
  }

  /** `view.ModifyCoins(txid)` followed by an assignment to the whole coin. */
  method OverwriteCoin(view: CoinsViewStack, txid: Hash, c: Coins, ghost s: Snapshot) returns (before: Coins)
    requires Ready(view, s)
    modifies view
    ensures Ready(view, Put(s, txid, c)) && Abs(before) == Lookup(s, txid)
    ensures view.db == old(view.db) && |view.caches| == |old(view.caches)|
  {
    assert View(view.db, view.caches, txid) == Lookup(s, txid);
    before := view.EditCoins(txid, c);
    ShowsPut(view.db, old(view.caches), view.caches, s, txid, c);
  }

  /** The input-restoring step of `DisconnectBlock` for one output; `left` is what the caches still had of a spent record. */
  method RestoreInput(view: CoinsViewStack, out: OutPoint, u: TxInUndo, ghost s: Snapshot) returns (clean: bool, ghost left: Coins)
    requires Ready(view, s)
    modifies view
    ensures IsLeftover(left) && clean == UnspendOver(s, out, u, left).1
    ensures Ready(view, UnspendOver(s, out, u, left).0)
  {
    assert View(view.db, view.caches, out.hash) == Lookup(s, out.hash);
    ghost var n := |view.caches|;
    var c := view.ModifyCoins(out.hash);
    assert view.caches[..n] == view.caches && old(view.caches)[..n] == old(view.caches);
    assert SameView(view.db, old(view.caches), view.db, view.caches);
    ghost var mid := view.caches;
    left := if out.hash in s then ClearedCoins else c;
    var c' := Unspend(c, out.n, u);
    clean := c'.1;
    view.ReleaseModifier(c'.0);
    assert Shows(view.db, mid, s) by {
      forall t ensures View(view.db, mid, t) == Lookup(s, t) {
        assert View(view.db, old(view.caches), t) == View(view.db, mid, t);
      }
    }
    assert c == Found(s, out.hash, left);
    ShowsPut(view.db, mid, view.caches, s, out.hash, c'.0);
  }

  /** The loop over the inputs, last input first. */
  method RestoreInputs(view: CoinsViewStack, vin: seq<OutPoint>, us: seq<TxInUndo>, ghost s: Snapshot)
    returns (clean: bool, ghost lefts: seq<Coins>)
    requires Ready(view, s) && |us| == |vin|
    modifies view
    ensures |lefts| == |vin| && AreLeftovers(lefts) && clean == UnspendAllOver(s, vin, us, lefts).1
    ensures Ready(view, UnspendAllOver(s, vin, us, lefts).0)
  {
    hide UnspendOver, Ready, IsLeftover;
    clean, lefts := true, [];
    ghost var cur := s;
    var j := |vin|;
    while j > 0
      invariant 0 <= j <= |vin| && |lefts| == |vin| - j && AreLeftovers(lefts)
      invariant (cur, clean) == UnspendAllOver(s, vin[j..], us[j..], lefts) && Ready(view, cur)
    {
      j := j - 1;
      assert vin[j..][1..] == vin[j + 1..] && us[j..][1..] == us[j + 1..];
      ghost var left;
      var ok;
      ok, left := RestoreInput(view, vin[j], us[j], cur);
      cur := UnspendOver(cur, vin[j], us[j], left).0;
      assert ([left] + lefts)[1..] == lefts;
      lefts := [left] + lefts;
      clean := clean && ok;
    }
    assert vin[0..] == vin && us[0..] == us;
  }

  /** One turn of the outer loop of `DisconnectBlock`; undo data of the wrong length stops it once the outputs are removed. */
  method UndoTx(view: CoinsViewStack, tx: Tx, us: seq<TxInUndo>, height: int, ghost s: Snapshot)
    returns (consistent: bool, clean: bool, ghost lefts: seq<Coins>)
    requires Ready(view, s)
    modifies view
    ensures consistent <==> Fits(tx, us)
    ensures consistent ==>
      && |lefts| == |us| && AreLeftovers(lefts) && clean == DisconnectTxOver(s, tx, us, height, lefts).1
      && Ready(view, DisconnectTxOver(s, tx, us, height, lefts).0)
    ensures !consistent ==> Ready(view, s - {tx.hash})
  {
    hide UnspendAllOver, OutsMatch, View, StackOk, LayerOk;
    ghost var before := view.caches;
    assert View(view.db, before, tx.hash) == Lookup(s, tx.hash);
    var outs := view.EditCoins(tx.hash, ClearedCoins);
    clean, lefts := OutsMatch(outs, tx, height), seq(|us|, _ => ClearedCoins);
    OutsMatchPruned(outs, Coin(s, tx.hash), tx, height);
    ShowsPut(view.db, before, view.caches, s, tx.hash, ClearedCoins);
    assert Put(s, tx.hash, ClearedCoins) == s - {tx.hash};
    consistent := true;
    if !tx.coinBase {
      if |us| != |tx.vin| {
        consistent := false;
        return;
      }
      var ok;
      ok, lefts := RestoreInputs(view, tx.vin, us, s - {tx.hash});
      clean := clean && ok;
    }
  }

  /**
   * `DisconnectBlock`: returns whether everything fitted, and if so the view shows the undone set. `vtxundo` has no entry
   * for the coinbase, the first transaction of the block. Whatever the undo data, the view shows what undoing the
   * transactions from `stop` on makes of the set, over what the caches still had of spent records.
   */
  method UndoBlock(view: CoinsViewStack, txs: seq<Tx>, vtxundo: seq<seq<TxInUndo>>, height: int, ghost s: Snapshot)
    returns (clean: bool, ghost stop: nat, ghost left: seq<seq<Coins>>)
    requires Ready(view, s)
    requires txs != [] && forall i :: 0 <= i < |txs| ==> (txs[i].coinBase <==> i == 0)
    modifies view
    ensures |vtxundo| + 1 != |txs| ==> !clean && Ready(view, s)
    ensures |vtxundo| + 1 == |txs| ==>
      && stop <= |txs| && AllFit(txs[stop..], ([[]] + vtxundo)[stop..]) && Covers(([[]] + vtxundo)[stop..], left)
      && var (s', ok) := DisconnectBlockOver(s, txs[stop..], ([[]] + vtxundo)[stop..], height, left);
         if stop == 0 then clean == ok && Ready(view, s')
         else !clean && stop >= 2 && |vtxundo[stop - 2]| != |txs[stop - 1].vin| && Ready(view, s' - {txs[stop - 1].hash})
    ensures clean ==> |vtxundo| + 1 == |txs| && AllFit(txs, [[]] + vtxundo)
    ensures |vtxundo| + 1 == |txs| && AllFit(txs, [[]] + vtxundo) ==>
      var (s', ok) := DisconnectBlock(s, txs, [[]] + vtxundo, height);
      clean == ok && (clean ==> Ready(view, s'))
  {
    hide DisconnectTx, DisconnectTxOver, DisconnectBlock, View, Ready, IsLeftover;
    clean, stop, left := true, |txs|, [];
    if |vtxundo| + 1 != |txs| {
      clean := false;
      return;
    }
    ghost var uss := [[]] + vtxundo;
    ghost var cur := s;
    var i := |txs|;
    while i > 0
      invariant 0 <= i <= |txs| && stop == i
      invariant AllFit(txs[i..], uss[i..]) && Covers(uss[i..], left)
      invariant (cur, clean) == DisconnectBlockOver(s, txs[i..], uss[i..], height, left) && Ready(view, cur)
    {
      i := i - 1;
      assert txs[i..][1..] == txs[i + 1..] && uss[i..][1..] == uss[i + 1..];
      ghost var lefts;
      var consistent, ok;
      consistent, ok, lefts := UndoTx(view, txs[i], if i > 0 then vtxundo[i - 1] else [], height, cur);
      if !consistent {
        assert !Fits(txs[i], uss[i]);
        clean := false;
        return;
      }
      FitsMore(txs[i..], uss[i..], left, lefts);
      clean := clean && ok;
      cur := DisconnectTxOver(cur, txs[i], uss[i], height, lefts).0;
      assert ([lefts] + left)[1..] == left;
      left := [lefts] + left;
      stop := i;
    }
    assert txs[0..] == txs && uss[0..] == uss;
    LeftoversDoNotMatter(s, txs, uss, height, left);
  }

  lemma FitsMore(txs: seq<Tx>, uss: seq<seq<TxInUndo>>, left: seq<seq<Coins>>, lefts: seq<Coins>)
    requires txs != [] && |uss| == |txs| && Fits(txs[0], uss[0]) && AllFit(txs[1..], uss[1..])
    requires Covers(uss[1..], left) && |lefts| == |uss[0]| && AreLeftovers(lefts)
    ensures AllFit(txs, uss) && Covers(uss, [lefts] + left)
  {
    hide IsLeftover;
    forall k | 0 <= k < |txs| ensures Fits(txs[k], uss[k]) {
      assert k > 0 ==> Fits(txs[1..][k - 1], uss[1..][k - 1]);
    }
    forall k | 0 <= k < |uss| ensures |([lefts] + left)[k]| == |uss[k]| && AreLeftovers(([lefts] + left)[k]) {
      assert k > 0 ==> |left[k - 1]| == |uss[1..][k - 1]| && AreLeftovers(left[k - 1]);
    }
  }

  lemma ClearUnspendablePruned(c: Coins)
    requires c.IsPruned()
    ensures ClearUnspendable(c).IsPruned()
  {
    var nulled := seq(|c.vout|, i requires 0 <= i < |c.vout| => Nulled(c.vout[i]));
    assert c.(vout := nulled).IsPruned();
  }

  /** The comparison cannot tell one fully spent record from another. */
  lemma OutsMatchPruned(a: Coins, b: Coins, tx: Tx, height: int)
    requires a == b || (a.IsPruned() && b.IsPruned())
    ensures OutsMatch(a, tx, height) <==> OutsMatch(b, tx, height)
  {
    hide ClearUnspendable;
    hide FromTx;
    if a != b {
      ClearUnspendablePruned(a);
      ClearUnspendablePruned(b);
    }
  }
}
