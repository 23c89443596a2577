/**
 * The flattened Merkle tree of a block, Merkle branches and the detection of duplicated
 * transactions (`CBlock`, src/primitives/block.cpp and src/core.cpp). The pair hash is an
 * arbitrary function `h`.
 */
module Merkle {
  import opened Common

  type Hash = int
  type PairHash = (Hash, Hash) -> Hash

  // ---------------------------------------------------------------- the tree, level by level

  /** Hash neighbours pairwise; a last node without a neighbour is paired with itself. */
  function NextLevel(h: PairHash, l: seq<Hash>): (r: seq<Hash>)
    ensures |r| == (|l| + 1) / 2
  {
    if l == [] then []
    else if |l| <= 2 then [h(l[0], l[|l| - 1])]
    else [h(l[0], l[1])] + NextLevel(h, l[2..])
  }

  lemma {:induction false} NextLevelAt(h: PairHash, l: seq<Hash>, i: nat)
    requires i < (|l| + 1) / 2
    ensures NextLevel(h, l)[i] == h(l[2 * i], l[Min(2 * i + 1, |l| - 1)])
    decreases |l|
  {
    if |l| > 2 && i > 0 {
      NextLevelAt(h, l[2..], i - 1);
    }
  }

  function Level(h: PairHash, txs: seq<Hash>, k: nat): seq<Hash> {
    if k == 0 then txs else NextLevel(h, Level(h, txs, k - 1))
  }

  /** Number of levels above the leaves. */
  function TreeHeight(n: nat): nat {
    if n <= 1 then 0 else 1 + TreeHeight((n + 1) / 2)
  }

  /** The number of nodes of level `k` over `n` leaves. */
  function Width(n: nat, k: nat): nat {
    if k == 0 then n else (Width(n, k - 1) + 1) / 2
  }

  lemma {:induction false} LevelWidth(h: PairHash, txs: seq<Hash>, k: nat)
    ensures |Level(h, txs, k)| == Width(|txs|, k)
  {
    if k > 0 {
      LevelWidth(h, txs, k - 1);
    }
  }

  lemma {:induction false} WidthShift(n: nat, k: nat)
    ensures Width(n, k + 1) == Width((n + 1) / 2, k)
  {
    if k > 0 {
      WidthShift(n, k - 1);
    }
  }

  lemma {:induction false} HeightOfWidth(n: nat, k: nat)
    requires n > 0
    ensures Width(n, k) > 0
    ensures k <= TreeHeight(n) ==> TreeHeight(Width(n, k)) == TreeHeight(n) - k
    ensures k >= TreeHeight(n) <==> Width(n, k) == 1
    decreases k
  {
    if k == 0 {
    } else {
      HeightOfWidth(n, k - 1);
    }
  }

  lemma BelowTop(n: nat, k: nat)
    requires k <= TreeHeight(n)
    ensures Width(n, k) > 1 <==> k < TreeHeight(n)
  {
    if n > 0 {
      HeightOfWidth(n, k);
    }
  }

  function Root(h: PairHash, txs: seq<Hash>): Hash {
    HeightOfRoot(h, txs);
    if txs == [] then 0 else Level(h, txs, TreeHeight(|txs|))[0]
  }

  lemma HeightOfRoot(h: PairHash, txs: seq<Hash>)
    ensures txs != [] ==> |Level(h, txs, TreeHeight(|txs|))| == 1
  {
    if txs != [] {
      LevelWidth(h, txs, TreeHeight(|txs|));
      HeightOfWidth(|txs|, TreeHeight(|txs|));
    }
  }

  /** The levels up to `k`, one after the other. */
  function Flat(h: PairHash, txs: seq<Hash>, k: nat): seq<Hash> {
    if k == 0 then txs else Flat(h, txs, k - 1) + Level(h, txs, k)
  }

  /** Where level `k` starts in the flattened tree. */
  function Offset(n: nat, k: nat): nat {
    if k == 0 then 0 else Offset(n, k - 1) + Width(n, k - 1)
  }

  lemma {:induction false} FlatLength(h: PairHash, txs: seq<Hash>, k: nat)
    ensures |Flat(h, txs, k)| == Offset(|txs|, k) + Width(|txs|, k)
  {
    LevelWidth(h, txs, k);
    if k > 0 {
      FlatLength(h, txs, k - 1);
    }
  }

  lemma {:induction false} FlatPrefix(h: PairHash, txs: seq<Hash>, k: nat, top: nat)
    requires k <= top
    ensures Flat(h, txs, k) <= Flat(h, txs, top)
    decreases top
  {
    if k < top {
      FlatPrefix(h, txs, k, top - 1);
    }
  }

  /** Node `i` of level `k` is found `Offset(k)` places into the flattened tree. */
  lemma FlatAt(h: PairHash, txs: seq<Hash>, k: nat, top: nat, i: nat)
    requires k <= top && i < Width(|txs|, k)
    ensures |Level(h, txs, k)| == Width(|txs|, k)
    ensures Offset(|txs|, k) + i < |Flat(h, txs, top)|
    ensures Flat(h, txs, top)[Offset(|txs|, k) + i] == Level(h, txs, k)[i]
  {
    LevelWidth(h, txs, k);
    FlatLength(h, txs, k);
    FlatPrefix(h, txs, k, top);
    if k > 0 {
      FlatLength(h, txs, k - 1);
    }
    assert Flat(h, txs, k)[Offset(|txs|, k) + i] == Level(h, txs, k)[i];
  }

  // ---------------------------------------------------------------- duplicated transactions

  /** The last two nodes of a level are a proper pair of identical hashes. */
  predicate DuplicateEnd(l: seq<Hash>) {
    |l| >= 2 && |l| % 2 == 0 && l[|l| - 2] == l[|l| - 1]
  }

  /** What `BuildMerkleTree` reports through `fMutated`. */
  predicate Mutated(h: PairHash, txs: seq<Hash>) {
    exists k :: 0 <= k < TreeHeight(|txs|) && DuplicateEnd(Level(h, txs, k))
  }

  predicate DuplicateBelow(h: PairHash, txs: seq<Hash>, k: nat) {
    k > 0 && (DuplicateBelow(h, txs, k - 1) || DuplicateEnd(Level(h, txs, k - 1)))
  }

  lemma {:induction false} DuplicateBelowAt(h: PairHash, txs: seq<Hash>, k: nat, top: nat)
    requires k < top && DuplicateEnd(Level(h, txs, k))
    ensures DuplicateBelow(h, txs, top)
    decreases top
  {
    if k < top - 1 {
      DuplicateBelowAt(h, txs, k, top - 1);
    }
  }

  lemma {:induction false} FindDuplicate(h: PairHash, txs: seq<Hash>, top: nat) returns (k: nat)
    requires DuplicateBelow(h, txs, top)
    ensures k < top && DuplicateEnd(Level(h, txs, k))
    decreases top
  {
    if DuplicateEnd(Level(h, txs, top - 1)) {
      k := top - 1;
    } else {
      k := FindDuplicate(h, txs, top - 1);
    }
  }

  lemma MutatedIsBelow(h: PairHash, txs: seq<Hash>)
    ensures Mutated(h, txs) <==> DuplicateBelow(h, txs, TreeHeight(|txs|))
  {
    var top := TreeHeight(|txs|);
    if Mutated(h, txs) {
      var k :| 0 <= k < top && DuplicateEnd(Level(h, txs, k));
      DuplicateBelowAt(h, txs, k, top);
    }
    if DuplicateBelow(h, txs, top) {
      var k := FindDuplicate(h, txs, top);
    }
  }

  /** The `i`-th pair of neighbours of a level. */
  function Pair(l: seq<Hash>, i: nat): (Hash, Hash)
    requires 2 * i < |l|
  {
    (l[2 * i], l[Min(2 * i + 1, |l| - 1)])
  }

  /** The `i`-th pairs of two levels are different and have the same hash. */
  predicate Collides(h: PairHash, l: seq<Hash>, m: seq<Hash>, i: nat) {
    && 2 * i < |l| && 2 * i < |m| && Pair(l, i) != Pair(m, i)
    && h(Pair(l, i).0, Pair(l, i).1) == h(Pair(m, i).0, Pair(m, i).1)
  }

  lemma SamePairs(l: seq<Hash>, m: seq<Hash>)
    requires l != [] && m != [] && (|l| + 1) / 2 == (|m| + 1) / 2 && !DuplicateEnd(l) && !DuplicateEnd(m)
    requires forall i :: 0 <= i < (|l| + 1) / 2 ==> Pair(l, i) == Pair(m, i)
    ensures l == m
  {
    var last := (|l| + 1) / 2 - 1;
    assert Pair(l, last) == Pair(m, last);
    assert |l| == |m|;
    forall j | 0 <= j < |l| ensures l[j] == m[j] {
      assert Pair(l, j / 2) == Pair(m, j / 2);
    }
  }

  /** Levels without a duplicated end and with equal parents are equal, or two of their pairs collide. */
  lemma EqualChildren(h: PairHash, l: seq<Hash>, m: seq<Hash>) returns (i: nat)
    requires l != [] && m != [] && NextLevel(h, l) == NextLevel(h, m)
    requires !DuplicateEnd(l) && !DuplicateEnd(m)
    ensures l == m || Collides(h, l, m, i)
  {
    hide NextLevel, DuplicateEnd;
    var w := |NextLevel(h, l)|;
    assert w == (|l| + 1) / 2 == (|m| + 1) / 2;
    i := 0;
    while i < w && Pair(l, i) == Pair(m, i)
      invariant i <= w && forall j :: 0 <= j < i ==> Pair(l, j) == Pair(m, j)
    {
      i := i + 1;
    }
    if i == w {
      SamePairs(l, m);
    } else {
      NextLevelAt(h, l, i);
      NextLevelAt(h, m, i);
    }
  }

  lemma {:induction false} EqualLevels(h: PairHash, a: seq<Hash>, b: seq<Hash>, k: nat, top: nat) returns (j: nat, i: nat)
    requires a != [] && b != [] && k <= top && Level(h, a, top) == Level(h, b, top)
    requires forall j :: 0 <= j < top ==> !DuplicateEnd(Level(h, a, j)) && !DuplicateEnd(Level(h, b, j))
    ensures Level(h, a, k) == Level(h, b, k) || (k <= j < top && Collides(h, Level(h, a, j), Level(h, b, j), i))
    decreases top - k
  {
    j, i := k, 0;
    if k < top {
      hide Collides, DuplicateEnd;
      j, i := EqualLevels(h, a, b, k + 1, top);
      if Level(h, a, k + 1) == Level(h, b, k + 1) {
        LevelWidth(h, a, k);
        LevelWidth(h, b, k);
        HeightOfWidth(|a|, k);
        HeightOfWidth(|b|, k);
        j := k;
        i := EqualChildren(h, Level(h, a, k), Level(h, b, k));
      }
    }
  }

  /**
   * The defence against duplicated transactions: two lists of the same tree height with the same root, neither
   * reported as mutated, are the same list, or two pairs at the same place of their trees collide.
   */
  lemma SameRootSameTransactions(h: PairHash, a: seq<Hash>, b: seq<Hash>) returns (k: nat, i: nat)
    requires a != [] && b != [] && TreeHeight(|a|) == TreeHeight(|b|)
    requires !Mutated(h, a) && !Mutated(h, b) && Root(h, a) == Root(h, b)
    ensures a == b || (k < TreeHeight(|a|) && Collides(h, Level(h, a, k), Level(h, b, k), i))
  {
    var top := TreeHeight(|a|);
    HeightOfRoot(h, a);
    HeightOfRoot(h, b);
    assert Level(h, a, top) == [Root(h, a)] && Level(h, b, top) == [Root(h, b)];
    k, i := EqualLevels(h, a, b, 0, top);
  }

  /** Without the height an inner node can pass for a transaction. */
  lemma HeightMatters(h: PairHash, x: Hash, y: Hash)
    requires x != y
    ensures Root(h, [x, y]) == Root(h, [h(x, y)]) && !Mutated(h, [x, y]) && !Mutated(h, [h(x, y)])
  {
    assert TreeHeight(2) == 1 && TreeHeight(1) == 0;
    assert Level(h, [x, y], 1) == NextLevel(h, Level(h, [x, y], 0)) == [h(x, y)];
    assert Level(h, [h(x, y)], 0) == [h(x, y)];
  }

  // ---------------------------------------------------------------- branches

  /** `nIndex ^ 1`. */
  function Sibling(i: nat): nat {
    if i % 2 == 0 then i + 1 else i - 1
  }

  /** The hash folded along a branch, as `CheckMerkleBranch` does it. */
  function FoldBranch(h: PairHash, hash: Hash, branch: seq<Hash>, index: int): Hash
    decreases |branch|
  {
    if branch == [] then hash
    else FoldBranch(h, if index % 2 == 1 then h(branch[0], hash) else h(hash, branch[0]), branch[1..], index / 2)
  }

  /** `nIndex >> k`. */
  function Ancestor(index: int, k: nat): (r: int)
    ensures index >= 0 ==> r >= 0
  {
    if k == 0 then index else Ancestor(index, k - 1) / 2
  }

  lemma {:induction false} AncestorInRange(n: nat, index: nat, k: nat)
    requires index < n
    ensures Ancestor(index, k) < Width(n, k)
  {
    if k > 0 {
      AncestorInRange(n, index, k - 1);
    }
  }

  /** The node next to the path from leaf `index` to the root, at level `k`. */
  function Neighbour(h: PairHash, txs: seq<Hash>, index: nat, k: nat): Hash
    requires txs != []
  {
    LevelWidth(h, txs, k);
    AncestorInRange(|txs|, 0, k);
    var l := Level(h, txs, k);
    l[Min(Sibling(Ancestor(index, k)), |l| - 1)]
  }

  /** The neighbours of the path from leaf `index`, up to but not including level `k`. */
  function Branch(h: PairHash, txs: seq<Hash>, index: nat, k: nat): (r: seq<Hash>)
    requires k > 0 ==> txs != []
    ensures |r| == k
  {
    if k == 0 then [] else Branch(h, txs, index, k - 1) + [Neighbour(h, txs, index, k - 1)]
  }

  lemma PairUp(h: PairHash, txs: seq<Hash>, index: nat, k: nat)
    requires index < |txs|
    ensures Ancestor(index, k) < |Level(h, txs, k)| && Ancestor(index, k + 1) < |Level(h, txs, k + 1)|
    ensures var i, hash, other := Ancestor(index, k), Level(h, txs, k)[Ancestor(index, k)], Neighbour(h, txs, index, k);
            Level(h, txs, k + 1)[Ancestor(index, k + 1)] == if i % 2 == 1 then h(other, hash) else h(hash, other)
  {
    LevelWidth(h, txs, k);
    LevelWidth(h, txs, k + 1);
    AncestorInRange(|txs|, index, k);
    AncestorInRange(|txs|, index, k + 1);
    NextLevelAt(h, Level(h, txs, k), Ancestor(index, k) / 2);
  }

  lemma {:induction false} FoldSnoc(h: PairHash, hash: Hash, branch: seq<Hash>, x: Hash, index: int)
    ensures var f := FoldBranch(h, hash, branch, index);
            FoldBranch(h, hash, branch + [x], index) == if Ancestor(index, |branch|) % 2 == 1 then h(x, f) else h(f, x)
    decreases |branch|
  {
    if branch == [] {
      assert branch + [x] == [x] && [x][1..] == [];
    } else {
      assert (branch + [x])[1..] == branch[1..] + [x];
      FoldSnoc(h, if index % 2 == 1 then h(branch[0], hash) else h(hash, branch[0]), branch[1..], x, index / 2);
      AncestorShift(index, |branch| - 1);
    }
  }

  lemma {:induction false} AncestorShift(index: int, k: nat)
    ensures Ancestor(index / 2, k) == Ancestor(index, k + 1)
  {
    if k > 0 {
      AncestorShift(index, k - 1);
    }
  }

  /** Folding the first `k` neighbours climbs to the ancestor at level `k`. */
  lemma {:induction false} FoldClimbs(h: PairHash, txs: seq<Hash>, index: nat, k: nat)
    requires index < |txs|
    ensures Ancestor(index, k) < |Level(h, txs, k)|
    ensures FoldBranch(h, txs[index], Branch(h, txs, index, k), index) == Level(h, txs, k)[Ancestor(index, k)]
  {
    hide Neighbour;
    if k > 0 {
      FoldClimbs(h, txs, index, k - 1);
      PairUp(h, txs, index, k - 1);
      FoldSnoc(h, txs[index], Branch(h, txs, index, k - 1), Neighbour(h, txs, index, k - 1), index);
    }
  }

  /** The branch of any transaction, folded from that transaction, gives the root of the block. */
  lemma BranchAuthenticates(h: PairHash, txs: seq<Hash>, index: nat)
    requires index < |txs|
    ensures FoldBranch(h, txs[index], Branch(h, txs, index, TreeHeight(|txs|)), index) == Root(h, txs)
  {
    FoldClimbs(h, txs, index, TreeHeight(|txs|));
    HeightOfRoot(h, txs);
  }

  /** The pair hashed in step `k` of folding a branch. */
  function FoldPair(h: PairHash, hash: Hash, branch: seq<Hash>, index: int, k: nat): (Hash, Hash)
    requires k < |branch|
  {
    var f := FoldBranch(h, hash, branch[..k], index);
    if Ancestor(index, k) % 2 == 1 then (branch[k], f) else (f, branch[k])
  }

  /** The tree's own pair on the path of leaf `index`. */
  function PathPair(h: PairHash, txs: seq<Hash>, index: nat, k: nat): (Hash, Hash)
    requires index < |txs|
  {
    LevelWidth(h, txs, k);
    AncestorInRange(|txs|, index, k);
    var hash, other := Level(h, txs, k)[Ancestor(index, k)], Neighbour(h, txs, index, k);
    if Ancestor(index, k) % 2 == 1 then (other, hash) else (hash, other)
  }

  /** In step `k` the branch hashes another pair than the tree has there, with the same result. */
  predicate BranchCollides(h: PairHash, txs: seq<Hash>, x: Hash, branch: seq<Hash>, index: nat, k: nat)
    requires index < |txs|
  {
    && k < |branch| && FoldPair(h, x, branch, index, k) != PathPair(h, txs, index, k)
    && (var p, q := FoldPair(h, x, branch, index, k), PathPair(h, txs, index, k); h(p.0, p.1) == h(q.0, q.1))
  }

  /** If the fold agrees with the tree above a level, it agrees on that level too, or a pair collides. */
  lemma StepDown(h: PairHash, txs: seq<Hash>, x: Hash, branch: seq<Hash>, index: nat, k: nat)
    requires index < |txs| && k < |branch|
    requires Ancestor(index, k + 1) < |Level(h, txs, k + 1)|
    requires FoldBranch(h, x, branch[..k + 1], index) == Level(h, txs, k + 1)[Ancestor(index, k + 1)]
    ensures Ancestor(index, k) < |Level(h, txs, k)|
    ensures
      || BranchCollides(h, txs, x, branch, index, k)
      || (FoldBranch(h, x, branch[..k], index) == Level(h, txs, k)[Ancestor(index, k)] && branch[k] == Neighbour(h, txs, index, k))
  {
    hide Neighbour, FoldBranch, Level, Ancestor;
    PairUp(h, txs, index, k);
    assert branch[..k + 1] == branch[..k] + [branch[k]];
    FoldSnoc(h, x, branch[..k], branch[k], index);
  }

  lemma FoldNothing(h: PairHash, txs: seq<Hash>, x: Hash, branch: seq<Hash>, index: nat)
    requires index < |txs| && Ancestor(index, 0) < |Level(h, txs, 0)|
    requires FoldBranch(h, x, branch[..0], index) == Level(h, txs, 0)[Ancestor(index, 0)]
    ensures x == txs[index]
  {
  }

  /** The first `k` steps of a fold that agrees with the tree at level `k`. */
  lemma {:induction false} FoldDown(h: PairHash, txs: seq<Hash>, x: Hash, branch: seq<Hash>, index: nat, k: nat) returns (j: nat)
    requires index < |txs| && k <= |branch| && Ancestor(index, k) < |Level(h, txs, k)|
    requires FoldBranch(h, x, branch[..k], index) == Level(h, txs, k)[Ancestor(index, k)]
    ensures (x == txs[index] && branch[..k] == Branch(h, txs, index, k)) || (j < k && BranchCollides(h, txs, x, branch, index, j))
    decreases k
  {
    hide Neighbour, BranchCollides, FoldBranch, Level, Ancestor;
    j := 0;
    if k == 0 {
      FoldNothing(h, txs, x, branch, index);
    } else {
      StepDown(h, txs, x, branch, index, k - 1);
      if BranchCollides(h, txs, x, branch, index, k - 1) {
        j := k - 1;
      } else {
        j := FoldDown(h, txs, x, branch, index, k - 1);
        assert branch[..k] == branch[..k - 1] + [branch[k - 1]];
      }
    }
  }

  /** A branch as long as the tree is high that leads from `x` to the root is the branch of transaction `index`, which is `x`, or a pair collides. */
  lemma BranchSound(h: PairHash, txs: seq<Hash>, x: Hash, branch: seq<Hash>, index: nat) returns (k: nat)
    requires index < |txs| && |branch| == TreeHeight(|txs|) && FoldBranch(h, x, branch, index) == Root(h, txs)
    ensures || (x == txs[index] && branch == Branch(h, txs, index, TreeHeight(|txs|)))
            || BranchCollides(h, txs, x, branch, index, k)
  {
    var top := TreeHeight(|txs|);
    HeightOfRoot(h, txs);
    LevelWidth(h, txs, top);
    AncestorInRange(|txs|, index, top);
    assert branch[..top] == branch;
    k := FoldDown(h, txs, x, branch, index, top);
  }

  // ---------------------------------------------------------------- the code

  class Block {
    var vtx: seq<Hash>
    /** Cache of the flattened tree, empty until it is first needed. */
    var vMerkleTree: seq<Hash>

    constructor (vtx: seq<Hash>)
      ensures this.vtx == vtx && vMerkleTree == []
    {
      this.vtx := vtx;
      vMerkleTree := [];
    }

    /** The cached tree, if any, belongs to the current transactions. */
    ghost predicate CacheOk(h: PairHash)
      reads this
    {
      vMerkleTree == [] || vMerkleTree == Flat(h, vtx, TreeHeight(|vtx|))
    }

    /** The inner loop of `BuildMerkleTree`: append the parents of the level that starts at `j`. */
    static method HashLevel(h: PairHash, before: seq<Hash>, j: nat, nSize: nat) returns (tree: seq<Hash>, dup: bool)
      requires j + nSize == |before| && nSize > 1
      ensures tree == before + NextLevel(h, before[j..])
      ensures dup <==> DuplicateEnd(before[j..])
    {
      tree, dup := before, false;
      ghost var level := before[j..];
      ghost var parents := NextLevel(h, level);
      var i := 0;
      ghost var m := 0;
      while i < nSize
        invariant i == 2 * m && m <= |parents|
        invariant tree == before + parents[..m]
        invariant dup <==> i >= nSize && DuplicateEnd(level)
      {
        var i2 := Min(i + 1, nSize - 1);
        assert tree[j + i] == level[i] && tree[j + i2] == level[i2];
        if i2 == i + 1 && i2 + 1 == nSize && tree[j + i] == tree[j + i2] {
          dup := true;
        }
        NextLevelAt(h, level, m);
        tree := tree + [h(tree[j + i], tree[j + i2])];
        i := i + 2;
        m := m + 1;
      }
      assert parents[..m] == parents;
    }

    /** The outer loop of `BuildMerkleTree`: one level after the other. */
    static method HashLevels(h: PairHash, vtx: seq<Hash>) returns (tree: seq<Hash>, mutated: bool)
      ensures tree == Flat(h, vtx, TreeHeight(|vtx|))
      ensures mutated <==> DuplicateBelow(h, vtx, TreeHeight(|vtx|))
    {
      tree, mutated := vtx, false;
      var j := 0;
      var nSize := |vtx|;
      ghost var k, top := 0, TreeHeight(|vtx|);
      while nSize > 1
        invariant nSize == Width(|vtx|, k) && j == Offset(|vtx|, k) && k <= top
        invariant tree == Flat(h, vtx, k)
        invariant mutated <==> DuplicateBelow(h, vtx, k)
        decreases nSize
      {
        BelowTop(|vtx|, k);
        FlatEnd(h, vtx, k);
        var dup;
        tree, dup := HashLevel(h, tree, j, nSize);
        mutated := mutated || dup;
        j := j + nSize;
        nSize := (nSize + 1) / 2;
        k := k + 1;
      }
      BelowTop(|vtx|, k);
    }

    /** `BuildMerkleTree`, with its report of a duplicated end of some level. */
    method BuildMerkleTree(h: PairHash) returns (root: Hash, mutated: bool)
      modifies this`vMerkleTree
      ensures vMerkleTree == Flat(h, vtx, TreeHeight(|vtx|)) && CacheOk(h)
      ensures root == Root(h, vtx)
      ensures mutated <==> Mutated(h, vtx)
    {
      vMerkleTree, mutated := HashLevels(h, vtx);
      root := if vMerkleTree == [] then 0 else vMerkleTree[|vMerkleTree| - 1];
      FlatLast(h, vtx, TreeHeight(|vtx|));
      MutatedIsBelow(h, vtx);
    }

    /**
     * `GetMerkleBranch`; an index past the end is cut down to the last node of each level. With a negative index and
     * more than one transaction the source reads in front of the tree, which is `None` here.
     */
    method GetMerkleBranch(h: PairHash, nIndex: int) returns (branch: Option<seq<Hash>>)
      requires CacheOk(h)
      modifies this`vMerkleTree
      ensures CacheOk(h) && (branch.None? <==> nIndex < 0 && |vtx| > 1)
      ensures branch.Some? ==> branch.value == Branch(h, vtx, Max(nIndex, 0), TreeHeight(|vtx|))
    {
      if vMerkleTree == [] {
        var _, _ := BuildMerkleTree(h);
      }
      if nIndex < 0 && |vtx| > 1 {
        return None;
      }
      var found := ReadBranch(h, vMerkleTree, vtx, if nIndex < 0 then 0 else nIndex);
      branch := Some(found);
    }

    /** The loop of `GetMerkleBranch` over the levels of the flattened tree. */
    static method ReadBranch(h: PairHash, tree: seq<Hash>, vtx: seq<Hash>, nIndex: nat) returns (branch: seq<Hash>)
      requires tree == Flat(h, vtx, TreeHeight(|vtx|))
      ensures branch == Branch(h, vtx, nIndex, TreeHeight(|vtx|))
    {
      hide Flat;
      hide Level;
      hide Neighbour;
      hide TreeHeight;
      branch := [];
      var j, index, nSize := 0, nIndex, |vtx|;
      ghost var k, top := 0, TreeHeight(|vtx|);
      while nSize > 1
        invariant nSize == Width(|vtx|, k) && j == Offset(|vtx|, k) && index == Ancestor(nIndex, k) && k <= top
        invariant k > 0 ==> vtx != []
        invariant branch == Branch(h, vtx, nIndex, k)
        decreases nSize
      {
        BelowTop(|vtx|, k);
        assert vtx != [] by { WidthZero(k); }
        NeighbourInFlat(h, vtx, nIndex, k, top);
        var i := Min(Sibling(index), nSize - 1);
        branch := branch + [tree[j + i]];
        index := index / 2;
        j := j + nSize;
        nSize := (nSize + 1) / 2;
        k := k + 1;
      }
      BelowTop(|vtx|, k);
    }

    /** `CheckMerkleBranch`; the index -1 stands for "not in a block". */
    static method CheckMerkleBranch(h: PairHash, leaf: Hash, branch: seq<Hash>, nIndex: int) returns (hash: Hash)
      ensures hash == if nIndex == -1 then 0 else FoldBranch(h, leaf, branch, nIndex)
    {
      if nIndex == -1 {
        return 0;
      }
      hash := leaf;
      var index := nIndex;
      for k := 0 to |branch|
        invariant FoldBranch(h, hash, branch[k..], index) == FoldBranch(h, leaf, branch, nIndex)
      {
        assert branch[k..][1..] == branch[k + 1..];
        hash := if index % 2 == 1 then h(branch[k], hash) else h(hash, branch[k]);
        index := index / 2;
      }
    }
  }

  lemma {:induction false} WidthZero(k: nat)
    ensures Width(0, k) == 0
  {
    if k > 0 {
      WidthZero(k - 1);
    }
  }

  lemma NeighbourInFlat(h: PairHash, txs: seq<Hash>, index: nat, k: nat, top: nat)
    requires txs != [] && k <= top
    ensures var at := Offset(|txs|, k) + Min(Sibling(Ancestor(index, k)), Width(|txs|, k) - 1);
            0 <= at < |Flat(h, txs, top)| && Flat(h, txs, top)[at] == Neighbour(h, txs, index, k)
  {
    hide Flat;
    hide Level;
    AncestorInRange(|txs|, 0, k);
    FlatAt(h, txs, k, top, Min(Sibling(Ancestor(index, k)), Width(|txs|, k) - 1));
  }

  lemma FlatEnd(h: PairHash, txs: seq<Hash>, k: nat)
    ensures Offset(|txs|, k) + Width(|txs|, k) == |Flat(h, txs, k)|
    ensures Flat(h, txs, k)[Offset(|txs|, k)..] == Level(h, txs, k)
  {
    LevelWidth(h, txs, k);
    FlatLength(h, txs, k);
    if k > 0 {
      FlatLength(h, txs, k - 1);
    }
  }

  lemma FlatLast(h: PairHash, txs: seq<Hash>, k: nat)
    requires k == TreeHeight(|txs|)
    ensures txs == [] ==> Flat(h, txs, k) == []
    ensures txs != [] ==> Flat(h, txs, k) != [] && Flat(h, txs, k)[|Flat(h, txs, k)| - 1] == Root(h, txs)
  {
    HeightOfRoot(h, txs);
  }
}
