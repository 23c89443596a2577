/** How large the encoding of a partial Merkle tree gets (src/merkleblock.h). */
module PartialMerkleSize {
  import opened Common
  import opened Merkle
  import opened PartialMerkle

  /** Number of hashes stored for a node: the leaves of the partial tree. */
  function Leaves(match_: seq<bool>, height: nat, pos: nat): (r: nat)
    ensures r > 0
    decreases height
  {
    if !Descends(match_, height, pos) then 1
    else Leaves(match_, height - 1, 2 * pos) + if HasRight(|match_|, height, pos) then Leaves(match_, height - 1, 2 * pos + 1) else 0
  }

  lemma {:induction false} LeavesAreHashes(h: PairHash, txids: seq<Hash>, match_: seq<bool>, height: nat, pos: nat)
    requires |txids| == |match_| && pos < Width(|txids|, height)
    ensures |Hashes(h, txids, match_, height, pos)| == Leaves(match_, height, pos)
    decreases height
  {
    hide Width;
    if Descends(match_, height, pos) {
      SpanSplit(|txids|, height, pos);
      LeavesAreHashes(h, txids, match_, height - 1, 2 * pos);
      if HasRight(|txids|, height, pos) {
        LeavesAreHashes(h, txids, match_, height - 1, 2 * pos + 1);
      }
    }
  }

  /** Descended nodes with a single child. */
  function Singles(match_: seq<bool>, height: nat, pos: nat): nat
    decreases height
  {
    if !Descends(match_, height, pos) then 0
    else Singles(match_, height - 1, 2 * pos) + if HasRight(|match_|, height, pos) then Singles(match_, height - 1, 2 * pos + 1) else 1
  }

  /** One bit per node: a binary tree with that many leaves, plus the nodes that have only one child. */
  lemma {:induction false} BitCount(match_: seq<bool>, height: nat, pos: nat)
    ensures |Bits(match_, height, pos)| == 2 * Leaves(match_, height, pos) - 1 + Singles(match_, height, pos)
    decreases height
  {
    hide Below;
    if Descends(match_, height, pos) {
      BitCount(match_, height - 1, 2 * pos);
      if HasRight(|match_|, height, pos) {
        BitCount(match_, height - 1, 2 * pos + 1);
      }
    }
  }

  /** `N <= total_transactions`, for the transactions below the node. */
  lemma {:induction false} LeavesBySpan(match_: seq<bool>, height: nat, pos: nat)
    requires pos < Width(|match_|, height)
    ensures Leaves(match_, height, pos) <= Hi(|match_|, height, pos) - Lo(|match_|, height, pos)
    decreases height
  {
    hide Lo;
    hide Width;
    hide Below;
    Span(|match_|, height, pos);
    if Descends(match_, height, pos) {
      SpanSplit(|match_|, height, pos);
      LeavesBySpan(match_, height - 1, 2 * pos);
      if HasRight(|match_|, height, pos) {
        LeavesBySpan(match_, height - 1, 2 * pos + 1);
      }
    }
  }

  lemma MatchesAdd(ml: nat, mr: nat, height: nat)
    requires height > 0
    ensures ml * (height - 1) + mr * (height - 1) == (ml + mr) * height - (ml + mr)
    ensures ml * (height - 1) <= ml * height
  {
    assert ml * (height - 1) == ml * height - ml;
    assert mr * (height - 1) == mr * height - mr;
    assert (ml + mr) * height == ml * height + mr * height;
  }

  /** `N <= 1 + matched_transactions * tree_height`. */
  lemma {:induction false} LeavesByMatches(match_: seq<bool>, height: nat, pos: nat)
    requires pos < Width(|match_|, height)
    ensures Leaves(match_, height, pos) <= 1 + Below(match_, height, pos) * height
    decreases height
  {
    hide Lo;
    hide Width;
    hide Below;
    if Descends(match_, height, pos) {
      BelowSplit(match_, height, pos);
      var m := Below(match_, height, pos);
      var ml := Below(match_, height - 1, 2 * pos);
      LeavesByMatches(match_, height - 1, 2 * pos);
      if HasRight(|match_|, height, pos) {
        var mr := Below(match_, height - 1, 2 * pos + 1);
        LeavesByMatches(match_, height - 1, 2 * pos + 1);
        MatchesAdd(ml, mr, height);
      } else {
        MatchesAdd(m, 0, height);
      }
    }
  }

  // ---------------------------------------------------------------- the documented number of bits

  /**
   * The last node of level `k` has a single child, because the level below has an odd width,
   * and a match below it. No other node of the level can lack a right child.
   */
  predicate OddEndMatched(match_: seq<bool>, k: nat)
    requires match_ != [] && k > 0
  {
    HeightOfWidth(|match_|, k);
    Width(|match_|, k - 1) % 2 == 1 && Below(match_, k, Width(|match_|, k) - 1) > 0
  }

  function SpineCount(match_: seq<bool>, k: nat): nat
    requires match_ != []
  {
    if k == 0 then 0 else SpineCount(match_, k - 1) + if OddEndMatched(match_, k) then 1 else 0
  }

  lemma {:induction false} EmptySpine(match_: seq<bool>, k: nat)
    requires match_ != [] && Width(|match_|, k) > 0 && Below(match_, k, Width(|match_|, k) - 1) == 0
    ensures SpineCount(match_, k) == 0
    decreases k
  {
    hide Below;
    if k > 0 {
      HeightOfWidth(|match_|, k - 1);
      BelowSplit(match_, k, Width(|match_|, k) - 1);
      EmptySpine(match_, k - 1);
    }
  }

  lemma WidthStep(n: nat, k: nat)
    ensures k > 0 ==> Width(n, k) == (Width(n, k - 1) + 1) / 2
  {
  }

  lemma {:induction false} SinglesOnSpine(match_: seq<bool>, k: nat, pos: nat)
    requires match_ != [] && pos < Width(|match_|, k)
    ensures Singles(match_, k, pos) == if pos + 1 == Width(|match_|, k) then SpineCount(match_, k) else 0
    decreases k
  {
    hide Below;
    hide Width;
    WidthStep(|match_|, k);
    if !Descends(match_, k, pos) {
      if k > 0 && pos + 1 == Width(|match_|, k) {
        EmptySpine(match_, k);
      }
    } else {
      BelowSplit(match_, k, pos);
      SinglesOnSpine(match_, k - 1, 2 * pos);
      if HasRight(|match_|, k, pos) {
        SinglesOnSpine(match_, k - 1, 2 * pos + 1);
      }
    }
  }

  /** The whole tree: how many hashes and bits `CPartialMerkleTree(vTxid, vMatch)` stores. */
  function HashTotal(match_: seq<bool>): nat {
    Leaves(match_, TreeHeight(|match_|), 0)
  }

  function BitTotal(match_: seq<bool>): nat {
    |Bits(match_, TreeHeight(|match_|), 0)|
  }

  lemma Totals(match_: seq<bool>)
    requires match_ != []
    ensures BitTotal(match_) == 2 * HashTotal(match_) - 1 + SpineCount(match_, TreeHeight(|match_|))
    ensures HashTotal(match_) <= |match_| && HashTotal(match_) <= BitTotal(match_)
    ensures HashTotal(match_) <= 1 + Count(match_, 0, |match_|) * TreeHeight(|match_|)
  {
    var top := TreeHeight(|match_|);
    HeightOfWidth(|match_|, top);
    BitCount(match_, top, 0);
    SinglesOnSpine(match_, top, 0);
    WholeSpan(|match_|);
    LeavesBySpan(match_, top, 0);
    LeavesByMatches(match_, top, 0);
  }

  lemma WholeSpan(n: nat)
    requires n > 0
    ensures Lo(n, TreeHeight(n), 0) == 0 && Hi(n, TreeHeight(n), 0) == n
  {
    HeightOfWidth(n, TreeHeight(n));
    LoOfZero(n, TreeHeight(n));
    LoMono(n, TreeHeight(n), 1, 1);
  }

  lemma {:induction false} LoOfZero(n: nat, k: nat)
    ensures Lo(n, k, 0) == 0
  {
    if k > 0 {
      LoOfZero(n, k - 1);
    }
  }

  lemma {:induction false} SpineZero(match_: seq<bool>, top: nat)
    requires match_ != []
    ensures SpineCount(match_, top) <= top
    ensures SpineCount(match_, top) == 0 <==> forall k :: 1 <= k <= top ==> !OddEndMatched(match_, k)
  {
    hide OddEndMatched;
    if top > 0 {
      SpineZero(match_, top - 1);
    }
  }

  /**
   * The documented "at most 2N-1 bits" holds exactly when no match lies below the last node of
   * a level over an odd number of children.
   */
  lemma BitBoundExactly(match_: seq<bool>)
    requires match_ != []
    ensures BitTotal(match_) <= 2 * HashTotal(match_) - 1 <==>
            forall k :: 1 <= k <= TreeHeight(|match_|) ==> !OddEndMatched(match_, k)
  {
    Totals(match_);
    SpineZero(match_, TreeHeight(|match_|));
  }

  /** A match on the last of five leaves: two hashes, but five bits. */
  lemma BitBoundFails()
    ensures var m := [false, false, false, false, true];
            HashTotal(m) == 2 && BitTotal(m) == 5 && BitTotal(m) > 2 * HashTotal(m) - 1
  {
    hide Below;
    var m := [false, false, false, false, true];
    assert Width(5, 1) == 3 && Width(5, 2) == 2 && Width(5, 3) == 1;
    assert TreeHeight(5) == 1 + TreeHeight(3) && TreeHeight(3) == 1 + TreeHeight(2) && TreeHeight(2) == 1;
    BelowLeaf(m, 0);
    BelowLeaf(m, 1);
    BelowLeaf(m, 2);
    BelowLeaf(m, 3);
    BelowLeaf(m, 4);
    BelowSplit(m, 1, 0);
    BelowSplit(m, 1, 1);
    BelowSplit(m, 1, 2);
    BelowSplit(m, 2, 0);
    BelowSplit(m, 2, 1);
    BelowSplit(m, 3, 0);
    FiveLeaves(m);
  }

  lemma FiveLeaves(m: seq<bool>)
    requires |m| == 5 && Width(5, 1) == 3 && Width(5, 2) == 2 && Width(5, 3) == 1
    requires Below(m, 3, 0) > 0 && Below(m, 2, 0) == 0 && Below(m, 2, 1) > 0 && Below(m, 1, 2) > 0
    ensures Leaves(m, 3, 0) == 2 && |Bits(m, 3, 0)| == 5
  {
    hide Below;
    assert Leaves(m, 1, 2) == 1 && |Bits(m, 1, 2)| == 2;
    assert Leaves(m, 2, 1) == 1 && |Bits(m, 2, 1)| == 3;
    assert Leaves(m, 2, 0) == 1 && |Bits(m, 2, 0)| == 1;
  }

  // ---------------------------------------------------------------- the documented size

  /** `GetSizeOfCompactSize`. */
  function CompactSize(n: nat): nat {
    if n < 253 then 1 else if n <= 0xffff then 3 else if n <= 0xffff_ffff then 5 else 9
  }

  /** One byte below 253, three up to 65535, five up to 4294967295, and nine beyond. */
  lemma CompactSizes(n: nat)
    ensures (CompactSize(n) == 1 <==> n <= 252) && (CompactSize(n) == 3 <==> 252 < n <= 65535)
    ensures (CompactSize(n) == 5 <==> 65535 < n <= 4294967295) && (CompactSize(n) == 9 <==> n > 4294967295)
  {
  }

  /** Transaction count, hash vector and bit bytes, each vector with its length. */
  function EncodedSize(match_: seq<bool>): nat {
    var nBytes := (BitTotal(match_) + 7) / 8;
    4 + CompactSize(HashTotal(match_)) + 32 * HashTotal(match_) + CompactSize(nBytes) + nBytes
  }

  /** "SIZE <= 10 + ceil(32.25*N)". */
  predicate SizeGuarantee(match_: seq<bool>) {
    EncodedSize(match_) <= 10 + (129 * HashTotal(match_) + 3) / 4
  }

  /** Bits to spare in the last byte when there are two bits per hash. */
  function SpareBits(hashes: nat): nat {
    (2 * hashes + 7) / 8 * 8 - 2 * hashes
  }

  /**
   * The guarantee holds exactly when the nodes with a single child fit into the spare bits, after
   * the two vector lengths have taken what they need of the six bytes allowed for them.
   */
  lemma SizeGuaranteeExactly(match_: seq<bool>)
    requires match_ != []
    ensures var lengths := CompactSize(HashTotal(match_)) + CompactSize((BitTotal(match_) + 7) / 8);
            SizeGuarantee(match_) <==>
            SpineCount(match_, TreeHeight(|match_|)) <= 1 + SpareBits(HashTotal(match_)) + 8 * (6 - lengths)
  {
    hide CompactSize, Leaves, SpineCount;
    Totals(match_);
    RoundedUp(HashTotal(match_), SpineCount(match_, TreeHeight(|match_|)),
              CompactSize(HashTotal(match_)) + CompactSize((BitTotal(match_) + 7) / 8));
  }

  lemma RoundedUp(n: nat, s: nat, lengths: int)
    requires n > 0
    ensures 4 + lengths + 32 * n + (2 * n - 1 + s + 7) / 8 <= 10 + (129 * n + 3) / 4
       <==> s <= 1 + SpareBits(n) + 8 * (6 - lengths)
  {
    var q, b := (2 * n + 7) / 8, (2 * n - 1 + s + 7) / 8;
    assert (129 * n + 3) / 4 == 32 * n + q;
    assert 8 * q <= 2 * n + 7 < 8 * q + 8;
    assert 8 * b <= 2 * n + 6 + s < 8 * b + 8;
  }

  /** The guarantee holds for fewer than 65536 hashes when at most one single-child node is descended. */
  lemma SizeGuaranteeHolds(match_: seq<bool>)
    requires match_ != [] && HashTotal(match_) < 0x10000 && SpineCount(match_, TreeHeight(|match_|)) <= 1
    ensures SizeGuarantee(match_)
  {
    Totals(match_);
  }

  /** It fails for every tree with 65536 hashes or more, whose count no longer takes at most three bytes. */
  lemma SizeGuaranteeFailsWide(match_: seq<bool>)
    requires match_ != [] && HashTotal(match_) >= 0x10000
    ensures !SizeGuarantee(match_)
  {
    Totals(match_);
  }

  /** Up to the largest transaction count that is accepted, four more bytes are always enough. */
  lemma SizeBound(match_: seq<bool>)
    requires match_ != [] && |match_| <= MAX_BLOCK_SIZE / 60
    ensures EncodedSize(match_) <= 14 + (129 * HashTotal(match_) + 3) / 4
  {
    Totals(match_);
    SpineZero(match_, TreeHeight(|match_|));
    HeightBound(|match_|, 17);
    assert Pow2(17) == 131072 by {
      assert Pow2(5) == 32;
      assert Pow2(10) == 1024;
      assert Pow2(15) == 32768;
    }
  }

  lemma {:induction false} HeightBound(n: nat, k: nat)
    ensures n <= Pow2(k) ==> TreeHeight(n) <= k
    decreases k
  {
    if n > 1 && k > 0 {
      HeightBound((n + 1) / 2, k - 1);
    }
  }

  lemma {:induction false} AllMatched(match_: seq<bool>, k: nat, pos: nat)
    requires (forall i :: 0 <= i < |match_| ==> match_[i]) && pos < Width(|match_|, k)
    ensures Below(match_, k, pos) > 0
    ensures Leaves(match_, k, pos) == Hi(|match_|, k, pos) - Lo(|match_|, k, pos)
    decreases k
  {
    hide Below;
    if k == 0 {
      BelowLeaf(match_, pos);
    } else {
      BelowSplit(match_, k, pos);
      SpanSplit(|match_|, k, pos);
      AllMatched(match_, k - 1, 2 * pos);
      if HasRight(|match_|, k, pos) {
        AllMatched(match_, k - 1, 2 * pos + 1);
      }
    }
  }

  /** Levels of odd width below level `k`, counted from the leaves. */
  function OddLevels(n: nat, k: nat): nat {
    if k == 0 then 0 else OddLevels(n, k - 1) + Width(n, k - 1) % 2
  }

  lemma {:induction false} AllMatchedSpine(match_: seq<bool>, k: nat)
    requires match_ != [] && forall i :: 0 <= i < |match_| ==> match_[i]
    ensures SpineCount(match_, k) == OddLevels(|match_|, k)
  {
    if k > 0 {
      AllMatchedSpine(match_, k - 1);
      HeightOfWidth(|match_|, k);
      AllMatched(match_, k, Width(|match_|, k) - 1);
    }
  }

  /** With all of 1025 transactions matched the encoding takes 33068 bytes, one more than guaranteed. */
  lemma SizeGuaranteeFailsNarrow(match_: seq<bool>)
    requires |match_| == 1025 && forall i :: 0 <= i < |match_| ==> match_[i]
    ensures EncodedSize(match_) == 33068 && !SizeGuarantee(match_)
  {
    hide Width;
    hide OddLevels;
    hide Leaves;
    hide Bits;
    hide TreeHeight;
    hide SpineCount;
    Widths1025();
    HeightOfWidth(1025, 11);
    HeightOfWidth(1025, 10);
    assert TreeHeight(1025) == 11;
    AllMatched(match_, 11, 0);
    WholeSpan(1025);
    AllMatchedSpine(match_, 11);
    Totals(match_);
  }

  lemma Widths1025()
    ensures Width(1025, 11) == 1 && Width(1025, 10) == 2 && OddLevels(1025, 11) == 10
  {
    assert Width(1025, 0) == 1025 && Width(1025, 1) == 513 && Width(1025, 2) == 257 && OddLevels(1025, 2) == 2;
    assert Width(1025, 3) == 129 && Width(1025, 4) == 65 && OddLevels(1025, 4) == 4;
    assert Width(1025, 5) == 33 && Width(1025, 6) == 17 && OddLevels(1025, 6) == 6;
    assert Width(1025, 7) == 9 && Width(1025, 8) == 5 && OddLevels(1025, 8) == 8;
    assert Width(1025, 9) == 3 && Width(1025, 10) == 2 && OddLevels(1025, 10) == 10;
  }
}
