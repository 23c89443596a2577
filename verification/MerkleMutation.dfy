/** Which lists of transactions share a Merkle root, and what the report of a mutation means (src/primitives/block.cpp). */
module MerkleMutation {
  import opened Common
  import opened Merkle
  import opened PartialMerkle

  lemma {:induction false} NextLevelConcat(h: PairHash, l: seq<Hash>, m: seq<Hash>)
    requires |l| % 2 == 0
    ensures NextLevel(h, l + m) == NextLevel(h, l) + NextLevel(h, m)
    decreases |l|
  {
    if l == [] {
      assert l + m == m;
    } else if m == [] {
      assert l + m == l;
    } else {
      assert (l + m)[2..] == l[2..] + m;
      NextLevelConcat(h, l[2..], m);
    }
  }

  /** Whole subtrees in front of a list stay on their own. */
  lemma {:induction false} LevelConcat(h: PairHash, a: seq<Hash>, b: seq<Hash>, m: nat, k: nat)
    requires |a| == m * Pow2(k)
    ensures Level(h, a + b, k) == Level(h, a, k) + Level(h, b, k) && |Level(h, a, k)| == m
    decreases k
  {
    if k > 0 {
      Doubled(m, Pow2(k - 1));
      LevelConcat(h, a, b, 2 * m, k - 1);
      NextLevelConcat(h, Level(h, a, k - 1), Level(h, b, k - 1));
    }
  }

  lemma Doubled(m: nat, p: nat)
    ensures m * (2 * p) == (2 * m) * p
  {
  }

  lemma {:induction false} SinglePair(h: PairHash, x: Hash)
    ensures NextLevel(h, [x]) == [h(x, x)] == NextLevel(h, [x, x])
  {
  }

  /** Repeating the last node of a level of odd width does not show one level up. */
  lemma {:induction false} RepeatedNode(h: PairHash, l: seq<Hash>)
    requires |l| % 2 == 1
    ensures NextLevel(h, l + [l[|l| - 1]]) == NextLevel(h, l)
  {
    SinglePair(h, l[|l| - 1]);
    hide NextLevel;
    var front, x := l[..|l| - 1], l[|l| - 1];
    assert l == front + [x] && l + [x] == front + [x, x];
    NextLevelConcat(h, front, [x]);
    NextLevelConcat(h, front, [x, x]);
  }

  lemma {:induction false} SameAbove(h: PairHash, a: seq<Hash>, b: seq<Hash>, k: nat, top: nat)
    requires k <= top && Level(h, a, k) == Level(h, b, k)
    ensures Level(h, a, top) == Level(h, b, top)
    decreases top
  {
    if k < top {
      SameAbove(h, a, b, k, top - 1);
    }
  }

  /** A level of odd width above one and the same level with one more node are equally far from the root. */
  lemma SameHeight(n: nat, n': nat, k: nat)
    requires Width(n, k) > 1 && Width(n, k) % 2 == 1 && Width(n', k) == Width(n, k) + 1
    ensures TreeHeight(n) == TreeHeight(n') > k
  {
    NotEmpty(n, k);
    NotEmpty(n', k);
    HeightOfWidth(n, k);
    HeightOfWidth(n', k);
    var m := Width(n, k);
    assert (m + 1) / 2 == (m + 2) / 2;
  }

  lemma {:induction false} NotEmpty(n: nat, k: nat)
    requires Width(n, k) > 0
    ensures n > 0
  {
    if k > 0 {
      NotEmpty(n, k - 1);
    }
  }

  /** Two lists that differ at level `k` only by a repeated last node of an odd level. */
  lemma {:induction false} SameRoot(h: PairHash, a: seq<Hash>, b: seq<Hash>, k: nat)
    requires var l := Level(h, a, k); |l| > 1 && |l| % 2 == 1 && Level(h, b, k) == l + [l[|l| - 1]]
    ensures a != [] && b != [] && Root(h, a) == Root(h, b) && TreeHeight(|a|) == TreeHeight(|b|) > k
    ensures DuplicateEnd(Level(h, b, k)) && Mutated(h, b)
  {
    hide NextLevel, TreeHeight, Width;
    LevelWidth(h, a, k);
    LevelWidth(h, b, k);
    SameHeight(|a|, |b|, k);
    NotEmpty(|a|, k);
    NotEmpty(|b|, k);
    RepeatedNode(h, Level(h, a, k));
    SameAbove(h, a, b, k + 1, TreeHeight(|a|));
  }

  /**
   * The weakness being defended against: if a level has an odd width above one and its last node is a whole subtree,
   * repeating the transactions of that subtree keeps the root. The repetition is reported.
   */
  lemma RepeatedEnd(h: PairHash, txs: seq<Hash>, k: nat)
    requires Width(|txs|, k) > 1 && Width(|txs|, k) % 2 == 1 && |txs| == Width(|txs|, k) * Pow2(k)
    ensures |txs| >= Pow2(k)
    ensures var b := txs + txs[|txs| - Pow2(k)..];
            Root(h, b) == Root(h, txs) && TreeHeight(|b|) == TreeHeight(|txs|) && Mutated(h, b)
  {
    hide Pow2;
    var m, p := Width(|txs|, k), Pow2(k);
    OneLess(m, p);
    var front, end := txs[..|txs| - p], txs[|txs| - p..];
    assert txs == front + end;
    LevelConcat(h, front, end, m - 1, k);
    LevelConcat(h, txs, end, m, k);
    LevelConcat(h, end, [], 1, k);
    SameRoot(h, txs, txs + end, k);
  }

  lemma OneLess(m: nat, p: nat)
    requires m > 0
    ensures m * p - p == (m - 1) * p && m * p >= p
  {
  }

  /**
   * What a report means: at the top it is a pair of equal halves; below, it is a repetition, and the list without
   * the repeated end has the same root and height.
   */
  lemma {:induction false} ReportMeans(h: PairHash, txs: seq<Hash>, k: nat)
    requires k < TreeHeight(|txs|) && DuplicateEnd(Level(h, txs, k))
    ensures var n := (Width(|txs|, k) - 1) * Pow2(k);
            && 0 < n < |txs|
            && (Width(|txs|, k) > 2 ==> Root(h, txs[..n]) == Root(h, txs) && TreeHeight(n) == TreeHeight(|txs|))
            && (Width(|txs|, k) == 2 ==> Root(h, txs) == h(Root(h, txs[..n]), Root(h, txs[..n])))
  {
    hide Level, Width, TreeHeight, Root, Pow2, Mutated;
    LevelWidth(h, txs, k);
    WidthBounds(|txs|, k);
    var w, p := Width(|txs|, k), Pow2(k);
    OneLess(w, p);
    AtLeastOne(w - 1, p);
    var n := (w - 1) * p;
    var front, end := txs[..n], txs[n..];
    assert txs == front + end;
    LevelConcat(h, front, end, w - 1, k);
    LevelWidth(h, front, k);
    LastNode(h, front, end, k);
    if w > 2 {
      SameRoot(h, front, txs, k);
    } else {
      assert n == p;
      TopPair(h, txs, front, k);
    }
  }

  lemma AtLeastOne(a: nat, b: nat)
    requires a > 0 && b > 0
    ensures a * b > 0
  {
  }

  lemma LastNode(h: PairHash, front: seq<Hash>, end: seq<Hash>, k: nat)
    requires Level(h, front + end, k) == Level(h, front, k) + Level(h, end, k)
    requires DuplicateEnd(Level(h, front + end, k)) && |Level(h, front, k)| == |Level(h, front + end, k)| - 1
    ensures var l := Level(h, front, k); l != [] && Level(h, front + end, k) == l + [l[|l| - 1]]
  {
  }

  lemma TopPair(h: PairHash, txs: seq<Hash>, front: seq<Hash>, k: nat)
    requires txs != [] && front != [] && Width(|front|, k) == 1 && Width(|txs|, k) == 2
    requires |Level(h, front, k)| == 1 && Level(h, txs, k) == Level(h, front, k) + Level(h, front, k)
    requires |front| == Pow2(k)
    ensures Root(h, txs) == h(Root(h, front), Root(h, front))
  {
    HeightOfWidth(|txs|, k);
    HeightOfWidth(|txs|, k + 1);
    HeightOfWidth(|front|, k);
    PowerHeight(k);
    var x := Level(h, front, k)[0];
    assert Level(h, txs, k) == [x, x];
    assert Level(h, txs, k + 1) == NextLevel(h, [x, x]);
  }

  lemma {:induction false} PowerHeight(k: nat)
    ensures TreeHeight(Pow2(k)) == k
  {
    if k > 0 {
      PowerHeight(k - 1);
      assert (Pow2(k) + 1) / 2 == Pow2(k - 1);
    }
  }
}
