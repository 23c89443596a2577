/**
 * The encodings that extraction accepts are those of pruned trees: the flags of a tree in depth-first order, filled up to
 * a byte, and the hashes it was cut at (`CPartialMerkleTree::ExtractMatches`, src/merkleblock.cpp).
 */
module PartialMerkleShape {
  import opened Common
  import opened Merkle
  import opened PartialMerkle
  import opened PartialMerkleSize
  import opened PartialMerkleTree

  /** A tree cut off at inner nodes without matches; the last node of a level of odd width has no right child. */
  datatype Tree = Cut(hash: Hash) | Tip(hash: Hash, matched: bool) | Fork(left: Tree, right: Option<Tree>)

  /** Is this a tree below node `pos` of level `height`, for `n` transactions? */
  predicate Shaped(n: nat, height: nat, pos: nat, t: Tree)
    decreases height
  {
    match t
    case Cut(_) => height > 0
    case Tip(_, _) => height == 0
    case Fork(left, right) =>
      && height > 0 && Shaped(n, height - 1, 2 * pos, left)
      && (right.Some? <==> 2 * pos + 1 < Width(n, height - 1))
      && (right.Some? ==> Shaped(n, height - 1, 2 * pos + 1, right.value))
  }

  /** One flag for every node, a node before those below it. */
  function Marks(t: Tree): (r: seq<bool>)
    ensures |r| > 0
  {
    match t
    case Cut(_) => [false]
    case Tip(_, matched) => [matched]
    case Fork(left, right) => [true] + (Marks(left) + if right.Some? then Marks(right.value) else [])
  }

  /** The hashes at the ends. */
  function Ends(t: Tree): (r: seq<Hash>)
    ensures |r| > 0
  {
    match t
    case Cut(hash) => [hash]
    case Tip(hash, _) => [hash]
    case Fork(left, right) => Ends(left) + if right.Some? then Ends(right.value) else []
  }

  /** The hash of the node; without a right child the left one is taken twice. */
  function Top(h: PairHash, t: Tree): Hash {
    match t
    case Cut(hash) => hash
    case Tip(hash, _) => hash
    case Fork(left, right) => h(Top(h, left), if right.Some? then Top(h, right.value) else Top(h, left))
  }

  /** The ids that are marked, from left to right. */
  function Ids(t: Tree): seq<Hash> {
    match t
    case Cut(_) => []
    case Tip(hash, matched) => if matched then [hash] else []
    case Fork(left, right) => Ids(left) + if right.Some? then Ids(right.value) else []
  }

  function Result(h: PairHash, t: Tree, nb: nat, nh: nat): Extracted {
    Good(Top(h, t), nb + |Marks(t)|, nh + |Ends(t)|, Ids(t))
  }

  function RightMarks(t: Tree): seq<bool>
    requires t.Fork?
  {
    if t.right.Some? then Marks(t.right.value) else []
  }

  function RightEnds(t: Tree): seq<Hash>
    requires t.Fork?
  {
    if t.right.Some? then Ends(t.right.value) else []
  }

  lemma {:induction false} ForkUnfolds(t: Tree)
    requires t.Fork?
    ensures Marks(t) == [true] + (Marks(t.left) + RightMarks(t)) && Ends(t) == Ends(t.left) + RightEnds(t)
  {
  }

  lemma OneAt(bits: seq<bool>, nb: nat)
    ensures At(bits, nb, [true]) <==> nb < |bits| && bits[nb]
  {
    if nb < |bits| {
      assert bits[nb..nb + 1] == [bits[nb]];
    }
  }

  /** The parts of a fork that stands in the two arrays. */
  lemma {:induction false} ForkMarks(bits: seq<bool>, nb: nat, t: Tree)
    requires t.Fork? && At(bits, nb, Marks(t))
    ensures nb < |bits| && bits[nb] && At(bits, nb + 1, Marks(t.left))
    ensures t.right.Some? ==> At(bits, nb + 1 + |Marks(t.left)|, Marks(t.right.value))
    ensures |Marks(t)| == 1 + |Marks(t.left)| + if t.right.Some? then |Marks(t.right.value)| else 0
  {
    hide Marks, At;
    ForkUnfolds(t);
    AtConcat(bits, nb, [true], Marks(t.left) + RightMarks(t));
    AtConcat(bits, nb + 1, Marks(t.left), RightMarks(t));
    OneAt(bits, nb);
  }

  lemma {:induction false} ForkEnds(hashes: seq<Hash>, nh: nat, t: Tree)
    requires t.Fork? && At(hashes, nh, Ends(t))
    ensures At(hashes, nh, Ends(t.left))
    ensures t.right.Some? ==> At(hashes, nh + |Ends(t.left)|, Ends(t.right.value))
    ensures |Ends(t)| == |Ends(t.left)| + if t.right.Some? then |Ends(t.right.value)| else 0
  {
    hide Ends, At;
    ForkUnfolds(t);
    AtConcat(hashes, nh, Ends(t.left), RightEnds(t));
  }

  lemma {:induction false} EndRead(h: PairHash, n: nat, bits: seq<bool>, hashes: seq<Hash>, height: nat, pos: nat, nb: nat, nh: nat, t: Tree)
    requires !t.Fork? && Shaped(n, height, pos, t) && At(bits, nb, Marks(t)) && At(hashes, nh, Ends(t))
    ensures Extract(h, n, bits, hashes, height, pos, nb, nh) == Result(h, t, nb, nh)
  {
    assert bits[nb] == bits[nb..nb + 1][0] && hashes[nh] == hashes[nh..nh + 1][0];
  }

  /** A tree that stands in the two arrays is read back. */
  lemma {:induction false} ReadsTree(h: PairHash, n: nat, bits: seq<bool>, hashes: seq<Hash>, height: nat, pos: nat, nb: nat, nh: nat, t: Tree)
    requires Shaped(n, height, pos, t) && At(bits, nb, Marks(t)) && At(hashes, nh, Ends(t))
    ensures Extract(h, n, bits, hashes, height, pos, nb, nh) == Result(h, t, nb, nh)
    decreases height
  {
    hide At, Marks, Ends, Width;
    if t.Fork? {
      ForkMarks(bits, nb, t);
      ForkEnds(hashes, nh, t);
      ReadsTree(h, n, bits, hashes, height - 1, 2 * pos, nb + 1, nh, t.left);
      if t.right.Some? {
        ReadsTree(h, n, bits, hashes, height - 1, 2 * pos + 1, nb + 1 + |Marks(t.left)|, nh + |Ends(t.left)|, t.right.value);
      } else {
        assert Ids(t.left) + [] == Ids(t.left);
      }
    } else {
      EndRead(h, n, bits, hashes, height, pos, nb, nh, t);
    }
  }

  lemma {:induction false} ForkAt(bits: seq<bool>, hashes: seq<Hash>, nb: nat, nh: nat, t: Tree)
    requires t.Fork? && nb < |bits| && bits[nb] && At(bits, nb + 1, Marks(t.left)) && At(hashes, nh, Ends(t.left))
    requires t.right.Some? ==>
      && At(bits, nb + 1 + |Marks(t.left)|, Marks(t.right.value))
      && At(hashes, nh + |Ends(t.left)|, Ends(t.right.value))
    ensures At(bits, nb, Marks(t)) && At(hashes, nh, Ends(t))
  {
    hide Marks, Ends, At;
    ForkUnfolds(t);
    OneAt(bits, nb);
    NoneAt(bits, nb + 1 + |Marks(t.left)|);
    NoneAt(hashes, nh + |Ends(t.left)|);
    AtInside(bits, nb + 1, Marks(t.left));
    AtInside(hashes, nh, Ends(t.left));
    Joined(bits, nb + 1, Marks(t.left), RightMarks(t));
    Joined(bits, nb, [true], Marks(t.left) + RightMarks(t));
    Joined(hashes, nh, Ends(t.left), RightEnds(t));
  }

  lemma NoneAt<T>(s: seq<T>, i: nat)
    ensures i <= |s| ==> At(s, i, [])
  {
    if i <= |s| {
      assert s[i..i] == [];
    }
  }

  lemma AtInside<T>(s: seq<T>, i: nat, part: seq<T>)
    requires At(s, i, part)
    ensures i + |part| <= |s|
  {
  }

  lemma {:induction false} EndAt(bits: seq<bool>, hashes: seq<Hash>, nb: nat, nh: nat, t: Tree)
    requires !t.Fork? && nb < |bits| && nh < |hashes|
    requires t.hash == hashes[nh] && bits[nb] == if t.Tip? then t.matched else false
    ensures At(bits, nb, Marks(t)) && At(hashes, nh, Ends(t))
  {
  }

  /** Whatever is read without fault is a tree. */
  lemma {:induction false} TreeRead(h: PairHash, n: nat, bits: seq<bool>, hashes: seq<Hash>, height: nat, pos: nat, nb: nat, nh: nat)
    returns (t: Tree)
    requires Extract(h, n, bits, hashes, height, pos, nb, nh).Good?
    ensures Shaped(n, height, pos, t) && At(bits, nb, Marks(t)) && At(hashes, nh, Ends(t))
    decreases height
  {
    hide At, Marks, Ends, Width;
    if height == 0 || !bits[nb] {
      t := if height == 0 then Tip(hashes[nh], bits[nb]) else Cut(hashes[nh]);
      EndAt(bits, hashes, nb, nh, t);
    } else {
      var left := TreeRead(h, n, bits, hashes, height - 1, 2 * pos, nb + 1, nh);
      ReadsTree(h, n, bits, hashes, height - 1, 2 * pos, nb + 1, nh, left);
      if HasRight(n, height, pos) {
        var right := TreeRead(h, n, bits, hashes, height - 1, 2 * pos + 1, nb + 1 + |Marks(left)|, nh + |Ends(left)|);
        t := Fork(left, Some(right));
      } else {
        t := Fork(left, None);
      }
      ForkAt(bits, hashes, nb, nh, t);
    }
  }

  lemma Joined<T>(s: seq<T>, i: nat, p: seq<T>, q: seq<T>)
    requires At(s, i, p) && At(s, i + |p|, q)
    ensures At(s, i, p + q)
  {
    assert s[i..i + |p + q|] == s[i..i + |p|] + s[i + |p|..i + |p| + |q|];
  }

  /** Every end has a flag of its own and stands for at least one transaction. */
  lemma {:induction false} FewEnds(n: nat, height: nat, pos: nat, t: Tree)
    requires Shaped(n, height, pos, t) && pos < Width(n, height)
    ensures |Ends(t)| <= |Marks(t)| && |Ends(t)| <= Hi(n, height, pos) - Lo(n, height, pos)
    decreases height
  {
    Span(n, height, pos);
    if t.Fork? {
      SpanSplit(n, height, pos);
      FewEnds(n, height - 1, 2 * pos, t.left);
      if t.right.Some? {
        FewEnds(n, height - 1, 2 * pos + 1, t.right.value);
      }
    }
  }

  /** The two arrays are those of a tree over `n` transactions, the flags filled up to a byte. */
  predicate Encodes(n: nat, bits: seq<bool>, hashes: seq<Hash>, t: Tree) {
    && Shaped(n, TreeHeight(n), 0, t) && hashes == Ends(t)
    && Marks(t) <= bits && (|Marks(t)| + 7) / 8 == (|bits| + 7) / 8
  }

  /** An accepted encoding is that of a tree, with the tree's hash and its marked ids. */
  lemma AcceptedTree(h: PairHash, n: nat, bits: seq<bool>, hashes: seq<Hash>) returns (t: Tree)
    requires Accepts(h, n, bits, hashes)
    ensures Encodes(n, bits, hashes, t) && Yields(h, n, bits, hashes) == (Top(h, t), Ids(t))
  {
    hide Extract, TreeHeight;
    t := TreeRead(h, n, bits, hashes, TreeHeight(n), 0, 0, 0);
    ReadsTree(h, n, bits, hashes, TreeHeight(n), 0, 0, 0, t);
    assert hashes[..|hashes|] == hashes;
  }

  /**
   * And every tree's encoding is accepted, for one to 83333 transactions. The tests that there are no more hashes than
   * transactions or flags reject nothing that the traversal would not.
   */
  lemma TreeAccepted(h: PairHash, n: nat, bits: seq<bool>, hashes: seq<Hash>, t: Tree)
    requires Encodes(n, bits, hashes, t) && 0 < n <= 83333
    ensures Accepts(h, n, bits, hashes) && Yields(h, n, bits, hashes) == (Top(h, t), Ids(t))
  {
    hide Extract;
    assert hashes[0..|hashes|] == hashes;
    ReadsTree(h, n, bits, hashes, TreeHeight(n), 0, 0, 0, t);
    HeightOfWidth(n, TreeHeight(n));
    WholeSpan(n);
    FewEnds(n, TreeHeight(n), 0, t);
  }

  /** The bits of a byte are taken from the least significant one on. */
  lemma BitOrder(x: bv8)
    ensures (HasBit(x, 0) <==> x & 0x01 != 0) && (HasBit(x, 1) <==> x & 0x02 != 0) && (HasBit(x, 2) <==> x & 0x04 != 0)
    ensures (HasBit(x, 3) <==> x & 0x08 != 0) && (HasBit(x, 4) <==> x & 0x10 != 0) && (HasBit(x, 5) <==> x & 0x20 != 0)
    ensures (HasBit(x, 6) <==> x & 0x40 != 0) && (HasBit(x, 7) <==> x & 0x80 != 0)
  {
  }

  /** What extraction accepts, exactly. */
  lemma AcceptsExactly(h: PairHash, n: nat, bits: seq<bool>, hashes: seq<Hash>)
    ensures Accepts(h, n, bits, hashes) <==> 0 < n <= 83333 && exists t :: Encodes(n, bits, hashes, t)
  {
    hide Encodes;
    if Accepts(h, n, bits, hashes) {
      var t := AcceptedTree(h, n, bits, hashes);
    }
    if 0 < n <= 83333 {
      if t :| Encodes(n, bits, hashes, t) {
        TreeAccepted(h, n, bits, hashes, t);
      }
    }
  }
}
