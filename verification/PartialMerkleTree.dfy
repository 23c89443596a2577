/**
 * The class `CPartialMerkleTree` itself: the two traversals, the checks around extraction, and
 * the packing of its bits into bytes (src/merkleblock.cpp, src/merkleblock.h).
 */
module PartialMerkleTree {
  import opened Common
  import opened Merkle
  import opened PartialMerkle
  import opened PartialMerkleSize

  // ---------------------------------------------------------------- bits in bytes

  predicate HasBit(x: bv8, k: nat)
    requires k < 8
  {
    x & ((1 as bv8) << k) != 0
  }

  function BitValue(b: bool): bv8 {
    if b then 1 else 0
  }

  lemma OrBit(x: bv8, b: bool, k: nat, j: nat)
    requires k < 8 && j < 8
    ensures HasBit(x | (BitValue(b) << k), j) <==> (j == k && b) || HasBit(x, j)
  {
  }

  /** Bit `p` of a byte sequence, least significant bit first. */
  predicate ByteBit(bytes: seq<bv8>, p: nat)
    requires p < 8 * |bytes|
  {
    HasBit(bytes[p / 8], p % 8)
  }

  /** `bytes` carry `bits`, and nothing but zeroes after them. */
  predicate Carries(bytes: seq<bv8>, bits: seq<bool>) {
    && |bytes| == (|bits| + 7) / 8
    && forall p :: 0 <= p < 8 * |bytes| ==> (ByteBit(bytes, p) <==> p < |bits| && bits[p])
  }

  /** The writing half of `SerializationOp`. */
  method PackBits(vBits: seq<bool>) returns (vBytes: seq<bv8>)
    ensures Carries(vBytes, vBits)
  {
    vBytes := seq((|vBits| + 7) / 8, _ => 0);
    for p := 0 to |vBits|
      invariant |vBytes| == (|vBits| + 7) / 8
      invariant forall q :: 0 <= q < 8 * |vBytes| ==> (ByteBit(vBytes, q) <==> q < p && vBits[q])
    {
      var before := vBytes;
      vBytes := vBytes[p / 8 := vBytes[p / 8] | (BitValue(vBits[p]) << (p % 8))];
      forall q | 0 <= q < 8 * |vBytes| ensures ByteBit(vBytes, q) <==> q < p + 1 && vBits[q] {
        OrBit(before[p / 8], vBits[p], p % 8, q % 8);
        assert ByteBit(before, q) <==> q < p && vBits[q];
      }
    }
  }

  /** What reading the bytes back must produce: the bits, and false up to the next byte boundary. */
  function Padded(bits: seq<bool>): (r: seq<bool>)
    ensures |r| == 8 * ((|bits| + 7) / 8) && bits <= r
  {
    bits + seq(8 * ((|bits| + 7) / 8) - |bits|, _ => false)
  }

  /** The reading half of `SerializationOp`. */
  method UnpackBits(vBytes: seq<bv8>) returns (vBits: seq<bool>)
    ensures |vBits| == 8 * |vBytes|
    ensures forall p :: 0 <= p < |vBits| ==> (vBits[p] <==> ByteBit(vBytes, p))
  {
    vBits := [];
    for p := 0 to 8 * |vBytes|
      invariant |vBits| == p
      invariant forall q :: 0 <= q < p ==> (vBits[q] <==> ByteBit(vBytes, q))
    {
      vBits := vBits + [vBytes[p / 8] & ((1 as bv8) << (p % 8)) != 0];
    }
  }

  /** Bits survive packing and unpacking, up to padding with false. */
  lemma UnpackPack(bytes: seq<bv8>, bits: seq<bool>, back: seq<bool>)
    requires Carries(bytes, bits)
    requires |back| == 8 * |bytes| && forall p :: 0 <= p < |back| ==> (back[p] <==> ByteBit(bytes, p))
    ensures back == Padded(bits)
  {
    forall p | 0 <= p < |back| ensures back[p] == Padded(bits)[p] {
      assert ByteBit(bytes, p) <==> p < |bits| && bits[p];
    }
  }

  // ---------------------------------------------------------------- what extraction accepts

  /** The checks of `ExtractMatches` around the traversal. */
  predicate Accepts(h: PairHash, n: nat, bits: seq<bool>, hashes: seq<Hash>) {
    && 0 < n <= MAX_BLOCK_SIZE / 60
    && |hashes| <= n
    && |bits| >= |hashes|
    && var x := Extract(h, n, bits, hashes, TreeHeight(n), 0, 0, 0);
       x.Good? && (x.nBits + 7) / 8 == (|bits| + 7) / 8 && x.nHash == |hashes|
  }

  /** The root and the ids that an accepted encoding yields. */
  function Yields(h: PairHash, n: nat, bits: seq<bool>, hashes: seq<Hash>): (Hash, seq<Hash>)
    requires Accepts(h, n, bits, hashes)
  {
    var x := Extract(h, n, bits, hashes, TreeHeight(n), 0, 0, 0);
    (x.hash, x.found)
  }

  /**
   * Completeness: for every transaction list within the size limit and every selection, what was
   * built, packed and unpacked is accepted and yields the Merkle root and the selected ids.
   */
  lemma ExtractionComplete(h: PairHash, txids: seq<Hash>, match_: seq<bool>)
    requires 0 < |txids| == |match_| <= MAX_BLOCK_SIZE / 60
    ensures 0 < Width(|txids|, TreeHeight(|txids|))
    ensures var top := TreeHeight(|txids|);
            var bits, hashes := Padded(Bits(match_, top, 0)), Hashes(h, txids, match_, top, 0);
            && Accepts(h, |txids|, bits, hashes)
            && Yields(h, |txids|, bits, hashes) == (Root(h, txids), Matched(txids, match_, 0, |txids|))
  {
    hide Bits;
    hide Hashes;
    hide Width;
    hide TreeHeight;
    hide Matched;
    hide Extract;
    var n, top := |txids|, TreeHeight(|txids|);
    HeightOfWidth(n, top);
    var bits, hashes := Bits(match_, top, 0), Hashes(h, txids, match_, top, 0);
    assert Padded(bits)[0..|bits|] == bits && hashes[0..|hashes|] == hashes;
    var x := ExtractBuilt(h, txids, match_, top, 0, Padded(bits), hashes, 0, 0);
    CalcHashRoot(h, txids);
    WholeSpan(n);
    Totals(match_);
    LeavesAreHashes(h, txids, match_, top, 0);
  }

  /**
   * Soundness: whoever made the encoding, if it is accepted for the true number of transactions
   * and yields the true root, the ids it yields are ids of the block, in order, or extraction came to
   * a node where it has another pair of children than the true tree, with the same hash.
   */
  lemma ExtractionSound(h: PairHash, txids: seq<Hash>, bits: seq<bool>, hashes: seq<Hash>) returns (e: Evidence)
    requires Accepts(h, |txids|, bits, hashes) && Yields(h, |txids|, bits, hashes).0 == Root(h, txids)
    ensures Supports(h, txids, bits, hashes, Node(TreeHeight(|txids|), 0, 0, 0), Yields(h, |txids|, bits, hashes).1, e)
    ensures e.Positions? ==> Selects(txids, Yields(h, |txids|, bits, hashes).1, e.ps, 0, |txids|)
  {
    hide Extract, Visits, CollidesAt;
    CalcHashRoot(h, txids);
    WholeSpan(|txids|);
    e := ExtractSound(h, txids, bits, hashes, Node(TreeHeight(|txids|), 0, 0, 0));
  }

  lemma AppendThree<T>(s: seq<T>, a: seq<T>, b: seq<T>, c: seq<T>)
    ensures s + a + b + c == s + (a + (b + c))
    ensures s + b + c == s + (b + c) && a + [] == a && b + [] == b
  {
  }

  // ---------------------------------------------------------------- the class

  class PartialMerkleTree {
    var nTransactions: nat
    var vBits: seq<bool>
    var vHash: seq<Hash>
    var fBad: bool

    /** The loop that finds the height of the tree. */
    static method FindHeight(n: nat) returns (nHeight: nat)
      ensures nHeight == TreeHeight(n)
    {
      nHeight := 0;
      WidthFormula(n, 0);
      while CalcTreeWidth(n, nHeight) > 1
        invariant nHeight <= TreeHeight(n)
        decreases TreeHeight(n) - nHeight
      {
        WidthFormula(n, nHeight);
        BelowTop(n, nHeight);
        nHeight := nHeight + 1;
      }
      WidthFormula(n, nHeight);
      BelowTop(n, nHeight);
    }

    /** Build from the ids of a block and a selection among them. */
    constructor Build(h: PairHash, vTxid: seq<Hash>, vMatch: seq<bool>)
      requires 0 < |vTxid| == |vMatch|
      ensures nTransactions == |vTxid| && !fBad
      ensures 0 < Width(|vTxid|, TreeHeight(|vTxid|))
      ensures vBits == Bits(vMatch, TreeHeight(|vTxid|), 0)
      ensures vHash == Hashes(h, vTxid, vMatch, TreeHeight(|vTxid|), 0)
    {
      nTransactions := |vTxid|;
      fBad := false;
      vBits := [];
      vHash := [];
      new;
      var nHeight := FindHeight(nTransactions);
      HeightOfWidth(|vTxid|, nHeight);
      TraverseAndBuild(h, nHeight, 0, vTxid, vMatch);
    }

    /** A tree as it arrives in a message. */
    constructor Receive(n: nat, vHash: seq<Hash>, vBytes: seq<bv8>)
      ensures nTransactions == n && this.vHash == vHash && !fBad
      ensures |vBits| == 8 * |vBytes| && forall p :: 0 <= p < |vBits| ==> (vBits[p] <==> ByteBit(vBytes, p))
    {
      nTransactions := n;
      this.vHash := vHash;
      var bits := UnpackBits(vBytes);
      vBits := bits;
      fBad := false;
    }

    /** The loop over the leaves below a node. */
    static method ParentOfMatch(height: nat, pos: nat, vMatch: seq<bool>) returns (f: bool)
      ensures f <==> Below(vMatch, height, pos) > 0
    {
      f := false;
      var n := |vMatch|;
      LoShift(n, height, pos);
      LoShift(n, height, pos + 1);
      Span(n, height, pos);
      var p := pos * Pow2(height);
      var end := (pos + 1) * Pow2(height);
      assert p <= end by { MulMono(pos, pos + 1, Pow2(height)); }
      while p < end && p < n
        invariant pos * Pow2(height) <= p <= end
        invariant Lo(n, height, pos) <= Min(p, n) && (f <==> Count(vMatch, Lo(n, height, pos), Min(p, n)) > 0)
      {
        f := f || vMatch[p];
        p := p + 1;
      }
    }

    /** `TraverseAndBuild`. */
    method TraverseAndBuild(h: PairHash, height: nat, pos: nat, vTxid: seq<Hash>, vMatch: seq<bool>)
      requires nTransactions == |vTxid| == |vMatch| && pos < Width(nTransactions, height)
      modifies this`vBits, this`vHash
      ensures vBits == old(vBits) + Bits(vMatch, height, pos)
      ensures vHash == old(vHash) + Hashes(h, vTxid, vMatch, height, pos)
      decreases height
    {
      hide CalcTreeWidth;
      hide CalcHash;
      hide Below;
      hide Width;
      var fParentOfMatch := ParentOfMatch(height, pos, vMatch);
      vBits := vBits + [fParentOfMatch];
      if height == 0 || !fParentOfMatch {
        vHash := vHash + [CalcHash(h, vTxid, height, pos)];
      } else {
        SpanSplit(nTransactions, height, pos);
        WidthFormula(nTransactions, height - 1);
        TraverseAndBuild(h, height - 1, 2 * pos, vTxid, vMatch);
        ghost var rb, rh := [], [];
        if 2 * pos + 1 < CalcTreeWidth(nTransactions, height - 1) {
          TraverseAndBuild(h, height - 1, 2 * pos + 1, vTxid, vMatch);
          rb, rh := Bits(vMatch, height - 1, 2 * pos + 1), Hashes(h, vTxid, vMatch, height - 1, 2 * pos + 1);
        }
        AppendThree(old(vBits), [true], Bits(vMatch, height - 1, 2 * pos), rb);
        AppendThree(old(vHash), [], Hashes(h, vTxid, vMatch, height - 1, 2 * pos), rh);
      }
    }

    /**
     * `TraverseAndExtract`; the two positions and the list of matches are passed through. After
     * bad data it keeps walking, but only the flag counts then.
     */
    method TraverseAndExtract(h: PairHash, height: nat, pos: nat, nb: nat, nh: nat, found: seq<Hash>)
      returns (hash: Hash, nBitsUsed: nat, nHashUsed: nat, vMatch: seq<Hash>)
      modifies this`fBad
      ensures var x := Extract(h, nTransactions, vBits, vHash, height, pos, nb, nh);
              && (fBad <==> old(fBad) || x.Bad?)
              && (x.Good? ==> hash == x.hash && nBitsUsed == x.nBits && nHashUsed == x.nHash && vMatch == found + x.found)
      decreases height
    {
      hide CalcTreeWidth;
      hide Width;
      hash, nBitsUsed, nHashUsed, vMatch := 0, nb, nh, found;
      if nBitsUsed >= |vBits| {
        fBad := true;
        return;
      }
      var fParentOfMatch := vBits[nBitsUsed];
      nBitsUsed := nBitsUsed + 1;
      if height == 0 || !fParentOfMatch {
        if nHashUsed >= |vHash| {
          fBad := true;
          return;
        }
        hash := vHash[nHashUsed];
        nHashUsed := nHashUsed + 1;
        if height == 0 && fParentOfMatch {
          vMatch := vMatch + [hash];
        }
      } else {
        WidthFormula(nTransactions, height - 1);
        var left, right;
        left, nBitsUsed, nHashUsed, vMatch := TraverseAndExtract(h, height - 1, 2 * pos, nBitsUsed, nHashUsed, vMatch);
        if 2 * pos + 1 < CalcTreeWidth(nTransactions, height - 1) {
          right, nBitsUsed, nHashUsed, vMatch := TraverseAndExtract(h, height - 1, 2 * pos + 1, nBitsUsed, nHashUsed, vMatch);
        } else {
          right := left;
        }
        hash := h(left, right);
        assert forall a: seq<Hash>, b: seq<Hash> :: found + a + b == found + (a + b);
      }
    }

    /** `ExtractMatches`: the root, or 0 when anything is wrong. */
    method ExtractMatches(h: PairHash) returns (root: Hash, vMatch: seq<Hash>)
      modifies this`fBad
      ensures !old(fBad) && Accepts(h, nTransactions, vBits, vHash) ==> (root, vMatch) == Yields(h, nTransactions, vBits, vHash)
      ensures old(fBad) || !Accepts(h, nTransactions, vBits, vHash) ==> root == 0
    {
      vMatch := [];
      if nTransactions == 0 {
        return 0, vMatch;
      }
      if nTransactions > MAX_BLOCK_SIZE / 60 {
        return 0, vMatch;
      }
      if |vHash| > nTransactions {
        return 0, vMatch;
      }
      if |vBits| < |vHash| {
        return 0, vMatch;
      }
      var nHeight := FindHeight(nTransactions);
      var nBitsUsed, nHashUsed;
      root, nBitsUsed, nHashUsed, vMatch := TraverseAndExtract(h, nHeight, 0, 0, 0, vMatch);
      ghost var x := Extract(h, nTransactions, vBits, vHash, nHeight, 0, 0, 0);
      assert x.Good? ==> [] + x.found == x.found;
      if fBad {
        return 0, vMatch;
      }
      if (nBitsUsed + 7) / 8 != (|vBits| + 7) / 8 {
        return 0, vMatch;
      }
      if nHashUsed != |vHash| {
        return 0, vMatch;
      }
    }
  }

  /** Build, send, receive, extract: the receiver gets the block's root and exactly the selected ids. */
  method SendAndExtract(h: PairHash, vTxid: seq<Hash>, vMatch: seq<bool>) returns (root: Hash, found: seq<Hash>)
    requires 0 < |vTxid| == |vMatch| <= MAX_BLOCK_SIZE / 60
    ensures root == Root(h, vTxid) && found == Matched(vTxid, vMatch, 0, |vTxid|)
  {
    var sender := new PartialMerkleTree.Build(h, vTxid, vMatch);
    var vBytes := PackBits(sender.vBits);
    var receiver := new PartialMerkleTree.Receive(sender.nTransactions, sender.vHash, vBytes);
    UnpackPack(vBytes, sender.vBits, receiver.vBits);
    ExtractionComplete(h, vTxid, vMatch);
    root, found := receiver.ExtractMatches(h);
  }
}
