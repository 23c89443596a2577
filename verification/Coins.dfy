/** Transaction outputs and the per-transaction coin record `CCoins` (src/coins.h, src/coins.cpp). */
module Coins {

  import opened Common

  /** 256-bit hashes appear as integers; their width plays no role here. */
  type Hash = int

  const OP_RETURN: Byte := 0x6a

  datatype TxOut = TxOut(value: int, script: seq<Byte>) {
    predicate IsNull() {
      value == -1
    }

    predicate IsUnspendable() {
      |script| > 0 && script[0] == OP_RETURN
    }
  }

  /** What `CTxOut::SetNull` leaves behind. */
  const NullOut := TxOut(-1, [])

  datatype OutPoint = OutPoint(hash: Hash, n: nat)

  datatype Tx = Tx(hash: Hash, vin: seq<OutPoint>, vout: seq<TxOut>, version: int, coinBase: bool)

  datatype Coins = Coins(coinBase: bool, vout: seq<TxOut>, height: int, version: int) {
    predicate IsAvailable(n: nat) {
      n < |vout| && !vout[n].IsNull()
    }

    predicate IsPruned() {
      forall i :: 0 <= i < |vout| ==> vout[i].IsNull()
    }

    /** No spent output at the end of the vector. */
    predicate Cleaned() {
      vout == [] || !vout[|vout| - 1].IsNull()
    }

    function Cleanup(): (c: Coins)
      ensures c.Cleaned()
      ensures c.IsPruned() <==> IsPruned()
      ensures forall n: nat :: c.IsAvailable(n) <==> IsAvailable(n)
    {
      TrimmedKeepsAvailable(vout);
      this.(vout := Trimmed(vout))
    }
  }

  /** The state of a default-constructed or cleared record. */
  const ClearedCoins := Coins(false, [], 0, 0)

  /** The longest prefix that does not end in a null output. */
  function Trimmed(vout: seq<TxOut>): (r: seq<TxOut>)
    ensures r <= vout
  {
    if vout != [] && vout[|vout| - 1].IsNull() then Trimmed(vout[..|vout| - 1]) else vout
  }

  lemma {:induction false} TrimmedKeepsAvailable(vout: seq<TxOut>)
    ensures var r := Trimmed(vout);
            && (r == [] || !r[|r| - 1].IsNull())
            && forall i :: |r| <= i < |vout| ==> vout[i].IsNull()
  {
    if vout != [] && vout[|vout| - 1].IsNull() {
      TrimmedKeepsAvailable(vout[..|vout| - 1]);
    }
  }

  /** Trimming is undone by padding with nulls: only the trailing nulls are lost. */
  lemma {:induction false} TrimmedOfPadded(vout: seq<TxOut>, nulls: seq<TxOut>)
    requires vout == [] || !vout[|vout| - 1].IsNull()
    requires forall i :: 0 <= i < |nulls| ==> nulls[i].IsNull()
    ensures Trimmed(vout + nulls) == vout
    decreases |nulls|
  {
    if nulls == [] {
      assert vout + nulls == vout;
    } else {
      var s := vout + nulls;
      assert s[..|s| - 1] == vout + nulls[..|nulls| - 1];
      TrimmedOfPadded(vout, nulls[..|nulls| - 1]);
    }
  }

  /** `CCoins::Cleanup`: pop null outputs off the back. */
  method CleanupLoop(c: Coins) returns (r: Coins)
    ensures r == c.Cleanup()
  {
    var vout := c.vout;
    while |vout| > 0 && vout[|vout| - 1].IsNull()
      invariant Trimmed(vout) == Trimmed(c.vout)
    {
      vout := vout[..|vout| - 1];
    }
    r := c.(vout := vout);
  }

  /** A coin record as an observer sees it: a fully spent record is no record at all. */
  function Abs(c: Coins): (r: Option<Coins>)
    ensures r.None? <==> c.IsPruned()
  {
    if c.IsPruned() then None else Some(c)
  }
}
