/**
 * The active chain index (`CChain`, src/chain.h and src/chain.cpp) over a tree of block index
 * entries with skip pointers (`CBlockIndex::GetAncestor`, `BuildSkip`, src/main.cpp).
 */
module Chain {
  import opened Common
  import opened SkipList

  type Hash = int

  // ---------------------------------------------------------------- the block tree

  /** `CBlockIndex`, as far as its place in the tree goes; these fields are set once. */
  class BlockIndex {
    const hash: Hash
    const pprev: BlockIndex?
    const nHeight: nat
    const pskip: BlockIndex?

    /** A new entry on top of `prev`, with its skip pointer built. */
    constructor (hash: Hash, prev: BlockIndex?)
      requires prev != null ==> WellFormed(prev)
      ensures this.hash == hash && pprev == prev && WellFormed(this)
    {
      this.hash := hash;
      pprev := prev;
      if prev == null {
        nHeight := 0;
        pskip := null;
      } else {
        nHeight := prev.nHeight + 1;
        var skip, _ := prev.GetAncestor(GetSkipHeight(prev.nHeight + 1));
        pskip := skip;
      }
    }

    /** `GetAncestor`: the ancestor at a height, by the skip list; `steps` counts the pointers followed. */
    method GetAncestor(height: int) returns (r: BlockIndex?, ghost steps: nat)
      requires WellFormed(this)
      ensures if 0 <= height <= nHeight then r == Ancestor(this, height) else r == null
      ensures steps == if 0 <= height <= nHeight then Steps(nHeight, height) else 0
      ensures forall k: nat {:trigger StepBound(k)} :: nHeight <= Pow2(k) ==> steps <= StepBound(k)
      ensures nHeight <= 0x4_0000 ==> steps <= 110
    {
      hide StepBound, InvertLowestOne, Pow2, Ancestor, Skips, Linked;
      r, steps := null, 0;
      if height > nHeight || height < 0 {
        return;
      }
      var walk: BlockIndex := this;
      var heightWalk := nHeight;
      while heightWalk > height
        invariant WellFormed(walk) && walk.nHeight == heightWalk && height <= heightWalk
        invariant Ancestor(walk, height) == Ancestor(this, height)
        invariant steps + Steps(heightWalk, height) == Steps(nHeight, height)
        decreases heightWalk
      {
        steps := steps + 1;
        var heightSkip := GetSkipHeight(heightWalk);
        var heightSkipPrev := GetSkipHeight(heightWalk - 1);
        if heightSkip == height || (heightSkip > height && !(heightSkipPrev < heightSkip - 2 && heightSkipPrev >= height)) {
          SkipsTo(walk);
          AncestorOfAncestor(walk, heightSkip, height);
          walk := walk.pskip;
          heightWalk := heightSkip;
        } else {
          StepsBack(walk, height);
          walk := walk.pprev;
          heightWalk := heightWalk - 1;
        }
      }
      assert walk == Ancestor(walk, height) by { AtOwnHeight(walk); }
      r := walk;
      forall k: nat | nHeight <= Pow2(k) ensures steps <= StepBound(k) {
        StepsWithin(nHeight, height, k);
      }
      if nHeight <= 0x4_0000 {
        AtMost110(nHeight, height);
      }
    }
  }

  /** Heights count the links back to a block without predecessor. */
  ghost predicate Linked(b: BlockIndex)
    decreases b.nHeight
  {
    && (b.pprev == null <==> b.nHeight == 0)
    && (b.pprev != null ==> b.pprev.nHeight + 1 == b.nHeight && Linked(b.pprev))
  }

  ghost function Ancestor(b: BlockIndex, height: nat): (r: BlockIndex)
    requires Linked(b) && height <= b.nHeight
    ensures Linked(r) && r.nHeight == height
    decreases b.nHeight
  {
    if height == b.nHeight then b else Ancestor(b.pprev, height)
  }

  /** All skip pointers below `b` lead to the ancestor at the skip height. */
  ghost predicate Skips(b: BlockIndex)
    requires Linked(b)
    decreases b.nHeight
  {
    b.pprev != null ==> b.pskip == Ancestor(b.pprev, GetSkipHeight(b.nHeight)) && Skips(b.pprev)
  }

  ghost predicate WellFormed(b: BlockIndex) {
    Linked(b) && Skips(b)
  }

  lemma SkipsTo(b: BlockIndex)
    requires WellFormed(b) && b.nHeight > 0
    ensures b.pskip == Ancestor(b, GetSkipHeight(b.nHeight))
  {
  }

  lemma StepsBack(b: BlockIndex, height: nat)
    requires WellFormed(b) && height < b.nHeight
    ensures b.pprev != null && WellFormed(b.pprev) && b.pprev.nHeight == b.nHeight - 1 && Ancestor(b, height) == Ancestor(b.pprev, height)
  {
  }

  lemma AtOwnHeight(b: BlockIndex)
    requires WellFormed(b)
    ensures Ancestor(b, b.nHeight) == b
  {
  }

  lemma {:induction false} AncestorOfAncestor(b: BlockIndex, mid: nat, height: nat)
    requires WellFormed(b) && height <= mid <= b.nHeight
    ensures WellFormed(Ancestor(b, mid)) && Ancestor(Ancestor(b, mid), height) == Ancestor(b, height)
    decreases b.nHeight
  {
    if mid < b.nHeight {
      AncestorOfAncestor(b.pprev, mid, height);
    }
  }

  /** The predecessor of an ancestor is the next ancestor. */
  lemma PrevAncestor(b: BlockIndex, a: BlockIndex)
    requires WellFormed(b) && IsAncestor(a, b)
    ensures a.pprev == null <==> a.nHeight == 0
    ensures a.pprev != null ==> WellFormed(a.pprev) && a.pprev.nHeight == a.nHeight - 1 && IsAncestor(a.pprev, b)
  {
    AncestorOfAncestor(b, a.nHeight, a.nHeight);
    if a.nHeight > 0 {
      AncestorOfAncestor(b, a.nHeight, a.nHeight - 1);
    }
  }

  /** From the first block of the branch up to `b`. */
  ghost function Path(b: BlockIndex): (p: seq<BlockIndex>)
    requires Linked(b)
    ensures |p| == b.nHeight + 1 && p[b.nHeight] == b
    decreases b.nHeight
  {
    (if b.pprev == null then [] else Path(b.pprev)) + [b]
  }

  lemma {:induction false} PathIsAncestors(b: BlockIndex, k: nat)
    requires Linked(b) && k <= b.nHeight
    ensures Path(b)[k] == Ancestor(b, k) && Path(Ancestor(b, k)) == Path(b)[..k + 1]
    decreases b.nHeight
  {
    if k < b.nHeight {
      PathIsAncestors(b.pprev, k);
      assert Path(b)[..k + 1] == Path(b.pprev)[..k + 1];
    } else {
      assert Path(b)[..k + 1] == Path(b);
    }
  }

  /** `a` is `b` or one of its ancestors. */
  ghost predicate IsAncestor(a: BlockIndex, b: BlockIndex)
    requires Linked(b)
  {
    a.nHeight <= b.nHeight && Ancestor(b, a.nHeight) == a
  }

  // ---------------------------------------------------------------- the active chain

  /** The vector is empty, or the path to its last entry. */
  ghost predicate IsPath(v: seq<BlockIndex?>) {
    v == [] || (v[|v| - 1] != null && WellFormed(v[|v| - 1]) && v == Path(v[|v| - 1]))
  }

  lemma PathEntry(v: seq<BlockIndex?>, k: nat)
    requires IsPath(v) && k < |v|
    ensures v[k] != null && v[k].nHeight == k && WellFormed(v[k]) && v[..k + 1] == Path(v[k])
  {
    var tip := v[|v| - 1];
    PathIsAncestors(tip, k);
    AncestorOfAncestor(tip, k, k);
  }

  class ActiveChain {
    var vChain: seq<BlockIndex?>

    ghost predicate Valid()
      reads this
    {
      IsPath(vChain)
    }

    constructor ()
      ensures Valid() && vChain == []
    {
      vChain := [];
    }

    function Tip(): BlockIndex?
      reads this
    {
      if |vChain| > 0 then vChain[|vChain| - 1] else null
    }

    /** `operator[]`. */
    function At(nHeight: int): BlockIndex?
      reads this
    {
      if nHeight < 0 || nHeight >= |vChain| then null else vChain[nHeight]
    }

    /** `Contains`: one lookup decides whether a block is on the active branch. */
    predicate Contains(pindex: BlockIndex)
      reads this
    {
      At(pindex.nHeight) == pindex
    }

    function Height(): int
      reads this
    {
      |vChain| - 1
    }

    /** `Next`. */
    function Next(pindex: BlockIndex): BlockIndex?
      reads this
    {
      if Contains(pindex) then At(pindex.nHeight + 1) else null
    }

    /** The height of the chain is that of its tip, which every other block of it is below. */
    lemma HeightIsTips()
      requires Valid()
      ensures Tip() == null ==> Height() == -1
      ensures Tip() != null ==> Height() == Tip().nHeight && forall i :: 0 <= i <= Height() ==> At(i) != null && At(i).nHeight == i
    {
      forall i | 0 <= i < |vChain| ensures vChain[i] != null && vChain[i].nHeight == i {
        PathEntry(vChain, i);
      }
    }

    /** The lookup is right: contained means the tip or one of its ancestors. */
    lemma ContainsIsAncestor(pindex: BlockIndex)
      requires Valid()
      ensures Contains(pindex) <==> Tip() != null && IsAncestor(pindex, Tip())
    {
      if pindex.nHeight < |vChain| {
        PathIsAncestors(Tip(), pindex.nHeight);
      }
    }

    /** The successor on the active branch is the contained block whose predecessor is the given one. */
    lemma NextIsChild(pindex: BlockIndex)
      requires Valid() && Contains(pindex)
      ensures Next(pindex) == null <==> pindex == Tip()
      ensures Next(pindex) != null ==> Contains(Next(pindex)) && Next(pindex).pprev == pindex
    {
      PathEntry(vChain, pindex.nHeight);
      if pindex.nHeight + 1 < |vChain| {
        PathEntry(vChain, pindex.nHeight + 1);
        var c := vChain[pindex.nHeight + 1];
        assert Path(c)[pindex.nHeight] == Path(c.pprev)[pindex.nHeight] == c.pprev;
        assert vChain[..pindex.nHeight + 2][pindex.nHeight] == pindex;
      }
    }

    /** On the active branch the lookup by height gives the ancestors of a contained block. */
    lemma AtIsAncestor(pindex: BlockIndex, height: nat)
      requires Valid() && Contains(pindex) && height <= pindex.nHeight
      ensures WellFormed(pindex) && At(height) == Ancestor(pindex, height)
    {
      PathEntry(vChain, pindex.nHeight);
      PathIsAncestors(pindex, height);
      assert vChain[height] == vChain[..pindex.nHeight + 1][height];
    }

    /** `SetTip`: whatever the chain was before, it becomes the path to the new tip. */
    method SetTip(tip: BlockIndex?)
      requires Valid() && (tip != null ==> WellFormed(tip))
      modifies this
      ensures Valid() && vChain == if tip == null then [] else Path(tip)
    {
      if tip == null {
        vChain := [];
        return;
      }
      var n := tip.nHeight + 1;
      var resized := if n <= |vChain| then vChain[..n] else vChain + seq(n - |vChain|, _ => null);
      vChain := WriteBranch(resized, tip, vChain);
    }

    /** The loop of `SetTip`: overwrite downwards until an entry is already right. */
    static method WriteBranch(resized: seq<BlockIndex?>, tip: BlockIndex, ghost before: seq<BlockIndex?>) returns (v: seq<BlockIndex?>)
      requires IsPath(before) && WellFormed(tip) && |resized| == tip.nHeight + 1
      requires forall k :: 0 <= k < |resized| ==> resized[k] == if k < |before| then before[k] else null
      ensures v == Path(tip)
    {
      hide Path;
      hide Ancestor;
      hide Linked;
      hide Skips;
      hide IsPath;
      v := resized;
      var pindex: BlockIndex? := tip;
      while pindex != null && v[pindex.nHeight] != pindex
        invariant pindex != null ==> pindex.nHeight <= tip.nHeight && pindex == Path(tip)[pindex.nHeight]
        invariant Tail(v, Path(tip), if pindex == null then 0 else pindex.nHeight + 1)
        invariant pindex != null ==> forall i :: 0 <= i <= pindex.nHeight ==> v[i] == resized[i]
        decreases if pindex == null then 0 else pindex.nHeight + 1
      {
        PathPrev(tip, pindex.nHeight);
        v := v[pindex.nHeight := pindex];
        pindex := pindex.pprev;
      }
      if pindex != null {
        SharedPrefix(tip, pindex.nHeight, before, v);
        TailAll(v, Path(tip), pindex.nHeight + 1);
      } else {
        TailAll(v, Path(tip), 0);
      }
    }

    /** `FindFork`: the last block that the active branch and the branch of `start` have in common. */
    method FindFork(start: BlockIndex) returns (fork: BlockIndex?)
      requires Valid() && WellFormed(start)
      ensures fork != null ==> Contains(fork) && IsAncestor(fork, start)
      ensures forall q: BlockIndex :: Contains(q) && IsAncestor(q, start) ==> fork != null && q.nHeight <= fork.nHeight
    {
      hide Linked;
      hide Skips;
      hide Path;
      fork := start;
      if fork.nHeight > Height() {
        var above, _ := fork.GetAncestor(Height());
        fork := above;
        if Height() >= 0 {
          AncestorOfAncestor(start, Height(), Height());
        }
      }
      while fork != null && !Contains(fork)
        invariant fork != null ==> WellFormed(fork) && IsAncestor(fork, start)
        invariant forall q: BlockIndex :: Contains(q) && IsAncestor(q, start) ==> fork != null && q.nHeight <= fork.nHeight
        decreases if fork == null then 0 else fork.nHeight + 1
      {
        PrevAncestor(start, fork);
        fork := fork.pprev;
      }
    }

    /** `GetLocator`: ever sparser ancestors of a block (by default the tip), down to the first block. */
    method GetLocator(from: BlockIndex?) returns (vHave: seq<Hash>, ghost blocks: seq<BlockIndex>)
      requires Valid() && (from != null ==> WellFormed(from))
      ensures var start := if from == null then Tip() else from;
              if start == null then vHave == [] else vHave != [] && vHave[0] == start.hash
      ensures var start := if from == null then Tip() else from;
              start != null ==>
                && Linked(start) && Sparse(blocks, start) && blocks[|blocks| - 1].nHeight == 0
                && |vHave| == |blocks| && (forall i :: 0 <= i < |vHave| ==> vHave[i] == blocks[i].hash)
                && (|vHave| <= 12 || Pow2(|vHave| - 12) <= start.nHeight)
                && (forall i :: 0 <= i < |blocks| - 1 ==>
                      blocks[i + 1].nHeight == Max(0, blocks[i].nHeight - if i <= 10 then 1 else Pow2(i - 10)))
                && (forall a: nat :: a <= start.nHeight ==> Near(blocks, start, a))
    {
      hide Path;
      hide Ancestor;
      hide Linked;
      hide Skips;
      hide Sparse;
      hide Spaced;
      hide Near;
      hide Pow2;
      var nStep := 1;
      vHave, blocks := [], [];
      var pindex := from;
      if pindex == null {
        pindex := Tip();
      }
      if pindex == null {
        return;
      }
      ghost var start := pindex;
      SparseStart(start);
      assert Spaced([] + [start]) by { SpacedOne(start); }
      while pindex != null
        invariant pindex != null && WellFormed(pindex) && WellFormed(start) && IsAncestor(pindex, start)
        invariant Sparse(blocks + [pindex], start)
        invariant |vHave| == |blocks| && forall i :: 0 <= i < |vHave| ==> vHave[i] == blocks[i].hash
        invariant nStep == if |blocks| <= 10 then 1 else Pow2(|blocks| - 10)
        invariant Spaced(blocks + [pindex])
        decreases pindex.nHeight
      {
        vHave := vHave + [pindex.hash];
        blocks := blocks + [pindex];
        if pindex.nHeight == 0 {
          SparseFirst(blocks, start);
          SpacedAll(blocks);
          SpacedLength(blocks);
          break;
        }
        var nHeight := Max(pindex.nHeight - nStep, 0);
        ghost var above: BlockIndex := pindex;
        assert Sparse(blocks, start) && blocks[|blocks| - 1] == above;
        if Contains(pindex) {
          AtIsAncestor(pindex, nHeight);
          pindex := At(nHeight);
        } else {
          var below, _ := pindex.GetAncestor(nHeight);
          pindex := below;
        }
        AncestorOfAncestor(start, above.nHeight, nHeight);
        AncestorOfAncestor(start, nHeight, nHeight);
        assert pindex == Ancestor(start, nHeight);
        SparseNext(blocks, start, pindex);
        SpacedNext(blocks, pindex);
        Doubles(|blocks|);
        if |vHave| > 10 {
          nStep := nStep * 2;
        }
      }
    }
  }

  /** From position `k` on the two sequences agree. */
  ghost predicate Tail(v: seq<BlockIndex?>, p: seq<BlockIndex>, k: nat) {
    |v| == |p| && forall i :: k <= i < |v| ==> v[i] == p[i]
  }

  lemma TailAll(v: seq<BlockIndex?>, p: seq<BlockIndex>, k: nat)
    requires Tail(v, p, k) && k <= |v| && v[..k] == p[..k]
    ensures v == p
  {
    forall i | 0 <= i < |v| ensures v[i] == p[i] {
      if i < k {
        assert v[i] == v[..k][i] == p[..k][i];
      }
    }
  }

  /** Where an old path already holds the right block, it is right all the way down. */
  lemma SharedPrefix(tip: BlockIndex, k: nat, before: seq<BlockIndex?>, v: seq<BlockIndex?>)
    requires WellFormed(tip) && k <= tip.nHeight && IsPath(before) && k < |v|
    requires forall i :: 0 <= i <= k ==> v[i] == if i < |before| then before[i] else null
    requires v[k] == Path(tip)[k]
    ensures v[..k + 1] == Path(tip)[..k + 1]
  {
    PathEntry(before, k);
    PathIsAncestors(tip, k);
    assert v[..k + 1] == before[..k + 1];
  }

  /** The block before a block of the path is the next lower one of the path. */
  lemma PathPrev(b: BlockIndex, k: nat)
    requires WellFormed(b) && k <= b.nHeight
    ensures var a := Path(b)[k];
            && a.nHeight == k && (a.pprev == null <==> k == 0)
            && (k > 0 ==> a.pprev.nHeight == k - 1 && a.pprev == Path(b)[k - 1])
  {
    PathIsAncestors(b, k);
    if k > 0 {
      PathIsAncestors(b, k - 1);
      AncestorOfAncestor(b, k, k - 1);
    }
  }

  /** One of the blocks is at a height or below it; the nearer that height is to the start, the nearer is the block. */
  ghost predicate Near(blocks: seq<BlockIndex>, start: BlockIndex, height: nat) {
    exists i :: 0 <= i < |blocks| && blocks[i].nHeight <= height <= blocks[i].nHeight + Max(0, start.nHeight - height - 11)
  }

  /** How far below the one before it the next block of a locator is. */
  function Gap(i: nat): nat {
    if i <= 10 then 1 else Pow2(i - 10)
  }

  /** The blocks are a locator, as far as their heights go. */
  ghost predicate Spaced(blocks: seq<BlockIndex>) {
    forall i :: 0 <= i < |blocks| - 1 ==> blocks[i + 1].nHeight == Max(0, blocks[i].nHeight - Gap(i))
  }

  lemma Doubles(n: nat)
    ensures n >= 11 ==> Pow2(n - 10) == 2 * Pow2(n - 11)
    ensures n == 11 ==> Pow2(n - 10) == 2 && Pow2(n - 11) == 1
    ensures n >= 12 ==> Pow2(n - 11) == 2 * Pow2(n - 12)
  {
  }

  lemma SpacedOne(start: BlockIndex)
    ensures Spaced([] + [start])
  {
  }

  lemma SpacedNext(blocks: seq<BlockIndex>, b: BlockIndex)
    requires blocks != [] && Spaced(blocks) && b.nHeight == Max(0, blocks[|blocks| - 1].nHeight - Gap(|blocks| - 1))
    ensures Spaced(blocks + [b])
  {
  }

  /** How far below the start block `i` of a locator is, if it is above the first block of the chain. */
  lemma {:induction false} SpacedDepth(blocks: seq<BlockIndex>, i: nat)
    requires Spaced(blocks) && i < |blocks| && blocks[i].nHeight > 0
    ensures blocks[0].nHeight - blocks[i].nHeight == if i <= 10 then i else 9 + Pow2(i - 10)
    decreases i
  {
    if i > 0 {
      assert blocks[i - 1 + 1].nHeight == Max(0, blocks[i - 1].nHeight - Gap(i - 1));
      SpacedDepth(blocks, i - 1);
    }
  }

  /** Whatever block below the start is asked for, the locator has one at or below it, and the nearer the start, the nearer. */
  lemma SpacedNear(blocks: seq<BlockIndex>, a: nat)
    requires Spaced(blocks) && blocks != [] && a <= blocks[0].nHeight && blocks[|blocks| - 1].nHeight == 0
    ensures Near(blocks, blocks[0], a)
  {
    if blocks[0].nHeight == a {
      assert blocks[0].nHeight <= a;
    } else {
      var i := 0;
      while blocks[i + 1].nHeight > a
        invariant 0 <= i < |blocks| - 1 && blocks[i].nHeight > a
        decreases |blocks| - i
      {
        i := i + 1;
      }
      SpacedDepth(blocks, i);
      assert blocks[i + 1].nHeight == Max(0, blocks[i].nHeight - Gap(i));
      assert blocks[i + 1].nHeight <= a;
    }
  }

  lemma SpacedAll(blocks: seq<BlockIndex>)
    requires Spaced(blocks) && blocks != [] && blocks[|blocks| - 1].nHeight == 0
    ensures forall i :: 0 <= i < |blocks| - 1 ==>
      blocks[i + 1].nHeight == Max(0, blocks[i].nHeight - if i <= 10 then 1 else Pow2(i - 10))
    ensures forall a: nat :: a <= blocks[0].nHeight ==> Near(blocks, blocks[0], a)
  {
    forall a: nat | a <= blocks[0].nHeight ensures Near(blocks, blocks[0], a) {
      SpacedNear(blocks, a);
    }
  }

  /** As the steps double, a locator is hardly longer than the logarithm of the height it starts from. */
  lemma SpacedLength(blocks: seq<BlockIndex>)
    requires Spaced(blocks) && (|blocks| >= 2 ==> blocks[|blocks| - 2].nHeight > 0)
    ensures |blocks| <= 12 || Pow2(|blocks| - 12) <= blocks[0].nHeight
  {
    if |blocks| > 12 {
      SpacedDepth(blocks, |blocks| - 2);
    }
  }

  lemma SparseFirst(blocks: seq<BlockIndex>, start: BlockIndex)
    requires Linked(start) && Sparse(blocks, start)
    ensures blocks[0] == start && (|blocks| >= 2 ==> blocks[|blocks| - 2].nHeight > 0)
  {
    assert |blocks| >= 2 ==> blocks[|blocks| - 2].nHeight > blocks[|blocks| - 1].nHeight;
  }

  lemma SparseStart(start: BlockIndex)
    requires WellFormed(start)
    ensures IsAncestor(start, start) && Sparse([] + [start], start)
  {
  }

  lemma SparseNext(blocks: seq<BlockIndex>, start: BlockIndex, b: BlockIndex)
    requires WellFormed(start) && Sparse(blocks, start) && IsAncestor(b, start)
    requires blocks[|blocks| - 1].nHeight > b.nHeight
    ensures Sparse(blocks + [b], start)
  {
    hide Ancestor;
    hide Linked;
  }

  /** Starting at `start`, strictly descending, and all of them ancestors of it. */
  ghost predicate Sparse(blocks: seq<BlockIndex>, start: BlockIndex)
    requires Linked(start)
  {
    && |blocks| > 0 && blocks[0] == start
    && (forall i :: 0 <= i < |blocks| ==> IsAncestor(blocks[i], start))
    && (forall i, j :: 0 <= i < j < |blocks| ==> blocks[i].nHeight > blocks[j].nHeight)
  }
}
