/** When disconnecting a transaction reports a mismatch, and what one restored output leaves (`DisconnectBlock`, src/main.cpp). */
module BlockUndoChecks {
  import opened Common
  import opened Coins
  import opened BlockUndo

  /** Does a record have any output? */
  ghost predicate HasAny(c: Coins) {
    exists n: nat :: Has(Some(c), n)
  }

  lemma PrunedHasNone(c: Coins)
    ensures HasAny(c) <==> !c.IsPruned()
  {
    if HasAny(c) {
      var n: nat :| Has(Some(c), n);
    }
    if !c.IsPruned() {
      LeftHas(c);
    }
  }

  /**
   * Undo data with a height belongs to a record that is gone, and brings back where it came from; undo data without one
   * belongs to a record that has some output left, but not this one. Either way the output is put back and no other changes.
   */
  lemma UnspendExactly(c: Coins, n: nat, u: TxInUndo)
    ensures var (r, clean) := Unspend(c, n, u);
            && (clean <==> if u.height != 0 then !HasAny(c) else HasAny(c) && !Has(Some(c), n))
            && (if u.height != 0 then r.coinBase == u.coinBase && r.height == u.height && r.version == u.version
                else r.coinBase == c.coinBase && r.height == c.height && r.version == c.version)
            && n < |r.vout| && r.vout[n] == u.txout
            && (forall m: nat :: m != n ==> (Has(Some(r), m) <==> u.height == 0 && Has(Some(c), m)))
            && (forall m: nat :: m != n && Has(Some(r), m) ==> r.vout[m] == c.vout[m])
  {
    hide HasAny;
    PrunedHasNone(c);
  }

  /** The output at a position, as it is compared: one that starts with OP_RETURN counts as null. */
  function Compared(vout: seq<TxOut>, n: nat): TxOut {
    if n < |vout| && (vout[n].script == [] || vout[n].script[0] != 0x6a) then vout[n] else TxOut(-1, [])
  }

  predicate LastsAt(vout: seq<TxOut>, n: nat) {
    n < |vout| && Lasting(vout[n])
  }

  /** The same outputs, up to the last one that lasts. */
  ghost predicate SameOutputs(a: seq<TxOut>, b: seq<TxOut>) {
    && (forall n: nat :: LastsAt(a, n) <==> LastsAt(b, n))
    && (forall n: nat, m: nat {:trigger Compared(a, n), LastsAt(a, m)} :: n <= m && LastsAt(a, m) ==> Compared(a, n) == Compared(b, n))
  }

  function Blanked(vout: seq<TxOut>): (r: seq<TxOut>)
    ensures |r| == |vout| && forall n :: 0 <= n < |vout| ==> r[n] == Compared(vout, n)
    ensures forall n :: 0 <= n < |vout| ==> (r[n].IsNull() <==> !LastsAt(vout, n))
  {
    seq(|vout|, i requires 0 <= i < |vout| => Nulled(vout[i]))
  }

  lemma SameTrimmed(a: seq<TxOut>, b: seq<TxOut>)
    ensures Trimmed(Blanked(a)) == Trimmed(Blanked(b)) <==> SameOutputs(a, b)
  {
    TrimmedKeepsAvailable(Blanked(a));
    TrimmedKeepsAvailable(Blanked(b));
    var s, t := Trimmed(Blanked(a)), Trimmed(Blanked(b));
    if SameOutputs(a, b) {
      assert |s| > 0 ==> LastsAt(a, |s| - 1);
      assert |t| > 0 ==> LastsAt(b, |t| - 1);
      assert |s| == |t|;
      forall n | 0 <= n < |s| ensures s[n] == t[n] {
        assert Compared(a, n) == Compared(b, n);
      }
    }
    if s == t {
      forall n: nat ensures LastsAt(a, n) <==> LastsAt(b, n) {
        assert n < |s| ==> Blanked(a)[n] == Blanked(b)[n];
      }
      forall n: nat, m: nat | n <= m && LastsAt(a, m) ensures Compared(a, n) == Compared(b, n) {
        assert m < |s|;
        assert s[n] == Blanked(a)[n] && t[n] == Blanked(b)[n];
      }
    }
  }

  /** No output that lasts. */
  ghost predicate NoneLasts(vout: seq<TxOut>) {
    forall n: nat :: !LastsAt(vout, n)
  }

  lemma ClearedFields(c: Coins)
    ensures ClearUnspendable(c) == c.(vout := Trimmed(Blanked(c.vout)))
    ensures ClearUnspendable(c).IsPruned() <==> NoneLasts(c.vout)
  {
    var b := Blanked(c.vout);
    TrimmedKeepsAvailable(b);
    var t := Trimmed(b);
    assert seq(|c.vout|, i requires 0 <= i < |c.vout| => Nulled(c.vout[i])) == b;
    if t != [] {
      assert LastsAt(c.vout, |t| - 1);
      assert !t[|t| - 1].IsNull();
    }
    if n: nat :| LastsAt(c.vout, n) {
      assert n < |t|;
    }
  }

  /**
   * The coin found for a transaction passes exactly if neither has an output that lasts, or if height, coinbase flag and
   * outputs agree and so does the version, unless that of the transaction is negative.
   */
  lemma OutsMatchExactly(c: Coins, tx: Tx, height: int)
    ensures OutsMatch(c, tx, height) <==>
      || (NoneLasts(c.vout) && NoneLasts(tx.vout))
      || (&& c.height == height && c.coinBase == tx.coinBase && (c.version == tx.version || tx.version < 0)
          && SameOutputs(c.vout, tx.vout))
  {
    hide ClearUnspendable, Trimmed, SameOutputs, NoneLasts, Blanked;
    var d := Coins(tx.coinBase, tx.vout, height, tx.version);
    ClearedFields(c);
    ClearedFields(d);
    SameTrimmed(c.vout, tx.vout);
  }
}
