/**
 * Partial Merkle trees (`CPartialMerkleTree`, src/merkleblock.h and src/merkleblock.cpp; the
 * "Partial Merkle branch format" section of BIP 37). The pair hash is an arbitrary function `h`.
 */
module PartialMerkle {
  import opened Common
  import opened Merkle

  // ---------------------------------------------------------------- shape of the tree

  /** `CalcTreeWidth`: `(nTransactions + (1 << height) - 1) >> height`. */
  function CalcTreeWidth(n: nat, height: nat): nat {
    (n + Pow2(height) - 1) / Pow2(height)
  }

  lemma MulMono(x: int, y: int, b: int)
    requires b > 0
    ensures x <= y ==> x * b <= y * b
    ensures x < y ==> x * b + b <= y * b
  {
    if x < y {
      var d := y - x - 1;
      assert d * b >= 0;
      assert y * b == (x + 1 + d) * b == x * b + b + d * b;
    }
  }

  lemma DivUnique(a: int, b: int, q: int)
    requires b > 0 && q * b <= a < q * b + b
    ensures a / b == q
  {
    var d := a / b;
    assert d * b <= a < d * b + b;
    MulMono(d, q, b);
    MulMono(q, d, b);
  }

  /** Rounding up by `2^k` is rounding up by two, `k` times. */
  lemma WidthFormula(n: nat, k: nat)
    ensures CalcTreeWidth(n, k) == Width(n, k)
  {
    WidthBounds(n, k);
    DivUnique(n + Pow2(k) - 1, Pow2(k), Width(n, k));
  }

  lemma {:induction false} WidthBounds(n: nat, k: nat)
    ensures n <= Width(n, k) * Pow2(k) < n + Pow2(k)
  {
    if k > 0 {
      WidthBounds(n, k - 1);
      HalveBounds(n, Width(n, k - 1), Width(n, k), Pow2(k - 1));
    }
  }

  lemma HalveBounds(n: nat, v: nat, w: nat, q: nat)
    requires q > 0 && n <= v * q < n + q && w == (v + 1) / 2
    ensures n <= w * (2 * q) < n + 2 * q
  {
    assert w * (2 * q) == (2 * w) * q;
    MulMono(v, 2 * w, q);
    MulMono(2 * w, v + 1, q);
    assert (v + 1) * q == v * q + q;
  }

  /** First leaf below node `pos` of level `k`, or `n` if there is none. */
  function Lo(n: nat, k: nat, pos: nat): (r: nat)
    ensures r <= n
    decreases k
  {
    if k > 0 then Lo(n, k - 1, 2 * pos) else if pos < n then pos else n
  }

  /** One past the last leaf below node `pos` of level `k`. */
  function Hi(n: nat, k: nat, pos: nat): (r: nat)
    ensures r <= n
  {
    Lo(n, k, pos + 1)
  }

  lemma {:induction false} LoMono(n: nat, k: nat, p: nat, q: nat)
    requires p <= q
    ensures Lo(n, k, p) <= Lo(n, k, q)
    ensures p < q && p < Width(n, k) ==> Lo(n, k, p) < Lo(n, k, q)
    ensures p >= Width(n, k) <==> Lo(n, k, p) == n
    decreases k
  {
    if k > 0 {
      LoMono(n, k - 1, 2 * p, 2 * q);
    }
  }

  lemma Span(n: nat, k: nat, pos: nat)
    ensures Lo(n, k, pos) <= Hi(n, k, pos)
    ensures pos < Width(n, k) ==> Lo(n, k, pos) < Hi(n, k, pos)
  {
    LoMono(n, k, pos, pos + 1);
  }

  /** A node's leaves are its left child's followed by its right child's. */
  lemma SpanSplit(n: nat, k: nat, pos: nat)
    requires k > 0 && pos < Width(n, k)
    ensures 2 * pos < Width(n, k - 1)
    ensures Lo(n, k, pos) == Lo(n, k - 1, 2 * pos)
    ensures Lo(n, k - 1, 2 * pos) <= Hi(n, k - 1, 2 * pos) <= Hi(n, k, pos)
    ensures Hi(n, k - 1, 2 * pos) == Lo(n, k - 1, 2 * pos + 1)
    ensures Hi(n, k, pos) == Hi(n, k - 1, 2 * pos + 1)
    ensures 2 * pos + 1 >= Width(n, k - 1) ==> Hi(n, k - 1, 2 * pos) == Hi(n, k, pos)
  {
    LoMono(n, k - 1, 2 * pos, 2 * pos + 1);
    LoMono(n, k - 1, 2 * pos + 1, 2 * pos + 2);
  }

  /** In the source's terms the leaves below a node start at `pos << k`. */
  lemma {:induction false} LoShift(n: nat, k: nat, pos: nat)
    ensures Lo(n, k, pos) == Min(pos * Pow2(k), n)
    decreases k
  {
    if k > 0 {
      LoShift(n, k - 1, 2 * pos);
      assert pos * (2 * Pow2(k - 1)) == (2 * pos) * Pow2(k - 1);
    }
  }

  /** `CalcHash`: the hash of a node, by recursion. */
  function CalcHash(h: PairHash, txids: seq<Hash>, height: nat, pos: nat): Hash
    requires pos < Width(|txids|, height)
    decreases height
  {
    if height == 0 then txids[pos]
    else
      SpanSplit(|txids|, height, pos);
      var left := CalcHash(h, txids, height - 1, 2 * pos);
      var right := if 2 * pos + 1 < Width(|txids|, height - 1) then CalcHash(h, txids, height - 1, 2 * pos + 1) else left;
      h(left, right)
  }

  /** The recursive hash is the one stored in the flattened tree of the block. */
  lemma {:induction false} CalcHashIsLevel(h: PairHash, txids: seq<Hash>, height: nat, pos: nat)
    requires pos < Width(|txids|, height)
    ensures |Level(h, txids, height)| == Width(|txids|, height)
    ensures CalcHash(h, txids, height, pos) == Level(h, txids, height)[pos]
    decreases height
  {
    LevelWidth(h, txids, height);
    if height > 0 {
      SpanSplit(|txids|, height, pos);
      LevelWidth(h, txids, height - 1);
      NextLevelAt(h, Level(h, txids, height - 1), pos);
      CalcHashIsLevel(h, txids, height - 1, 2 * pos);
      if 2 * pos + 1 < Width(|txids|, height - 1) {
        CalcHashIsLevel(h, txids, height - 1, 2 * pos + 1);
      }
    }
  }

  lemma CalcHashRoot(h: PairHash, txids: seq<Hash>)
    requires txids != []
    ensures 0 < Width(|txids|, TreeHeight(|txids|))
    ensures CalcHash(h, txids, TreeHeight(|txids|), 0) == Root(h, txids)
  {
    HeightOfWidth(|txids|, TreeHeight(|txids|));
    CalcHashIsLevel(h, txids, TreeHeight(|txids|), 0);
  }

  // ---------------------------------------------------------------- matches below a node

  function Count(match_: seq<bool>, lo: nat, hi: nat): (c: nat)
    requires lo <= hi <= |match_|
    ensures c <= hi - lo
    decreases hi
  {
    if lo == hi then 0 else Count(match_, lo, hi - 1) + if match_[hi - 1] then 1 else 0
  }

  /** The matched ids of a range of leaves, in order. */
  function Matched(txids: seq<Hash>, match_: seq<bool>, lo: nat, hi: nat): (r: seq<Hash>)
    requires lo <= hi <= |match_| == |txids|
    ensures |r| == Count(match_, lo, hi)
    decreases hi
  {
    if lo == hi then [] else Matched(txids, match_, lo, hi - 1) + if match_[hi - 1] then [txids[hi - 1]] else []
  }

  lemma {:induction false} CountSplit(match_: seq<bool>, lo: nat, mid: nat, hi: nat)
    requires lo <= mid <= hi <= |match_|
    ensures Count(match_, lo, hi) == Count(match_, lo, mid) + Count(match_, mid, hi)
    decreases hi
  {
    if mid < hi {
      CountSplit(match_, lo, mid, hi - 1);
    }
  }

  lemma {:induction false} MatchedSplit(txids: seq<Hash>, match_: seq<bool>, lo: nat, mid: nat, hi: nat)
    requires lo <= mid <= hi <= |match_| == |txids|
    ensures Matched(txids, match_, lo, hi) == Matched(txids, match_, lo, mid) + Matched(txids, match_, mid, hi)
    decreases hi
  {
    if mid < hi {
      MatchedSplit(txids, match_, lo, mid, hi - 1);
    }
  }

  /** Matched leaves below a node. */
  function Below(match_: seq<bool>, height: nat, pos: nat): nat {
    Span(|match_|, height, pos);
    Count(match_, Lo(|match_|, height, pos), Hi(|match_|, height, pos))
  }

  function MatchedBelow(txids: seq<Hash>, match_: seq<bool>, height: nat, pos: nat): seq<Hash>
    requires |txids| == |match_|
  {
    Span(|match_|, height, pos);
    Matched(txids, match_, Lo(|match_|, height, pos), Hi(|match_|, height, pos))
  }

  lemma BelowSplit(match_: seq<bool>, k: nat, pos: nat)
    requires k > 0 && pos < Width(|match_|, k)
    ensures 2 * pos < Width(|match_|, k - 1)
    ensures Below(match_, k, pos) == Below(match_, k - 1, 2 * pos) +
                                     if 2 * pos + 1 < Width(|match_|, k - 1) then Below(match_, k - 1, 2 * pos + 1) else 0
  {
    var n := |match_|;
    SpanSplit(n, k, pos);
    Span(n, k - 1, 2 * pos + 1);
    CountSplit(match_, Lo(n, k, pos), Hi(n, k - 1, 2 * pos), Hi(n, k, pos));
  }

  lemma MatchedBelowSplit(txids: seq<Hash>, match_: seq<bool>, k: nat, pos: nat)
    requires |txids| == |match_| && k > 0 && pos < Width(|match_|, k)
    ensures MatchedBelow(txids, match_, k, pos) ==
            MatchedBelow(txids, match_, k - 1, 2 * pos) +
            if 2 * pos + 1 < Width(|match_|, k - 1) then MatchedBelow(txids, match_, k - 1, 2 * pos + 1) else []
  {
    var n := |match_|;
    SpanSplit(n, k, pos);
    Span(n, k - 1, 2 * pos + 1);
    MatchedSplit(txids, match_, Lo(n, k, pos), Hi(n, k - 1, 2 * pos), Hi(n, k, pos));
  }

  lemma BelowLeaf(match_: seq<bool>, pos: nat)
    requires pos < |match_|
    ensures Below(match_, 0, pos) == if match_[pos] then 1 else 0
  {
    assert Count(match_, pos, pos) == 0;
  }

  lemma MatchedBelowLeaf(txids: seq<Hash>, match_: seq<bool>, pos: nat)
    requires |txids| == |match_| && pos < |match_|
    ensures MatchedBelow(txids, match_, 0, pos) == if match_[pos] then [txids[pos]] else []
  {
    assert Matched(txids, match_, pos, pos) == [];
  }

  // ---------------------------------------------------------------- building and extracting

  /** A node is descended into when it is an inner node above some match. */
  predicate Descends(match_: seq<bool>, height: nat, pos: nat) {
    height > 0 && Below(match_, height, pos) > 0
  }

  predicate HasRight(n: nat, height: nat, pos: nat) {
    height > 0 && 2 * pos + 1 < Width(n, height - 1)
  }

  /** What `TraverseAndBuild` appends to `vBits` for one node. */
  function Bits(match_: seq<bool>, height: nat, pos: nat): (r: seq<bool>)
    ensures |r| > 0
    decreases height
  {
    [Below(match_, height, pos) > 0] +
    if !Descends(match_, height, pos) then []
    else Bits(match_, height - 1, 2 * pos) + if HasRight(|match_|, height, pos) then Bits(match_, height - 1, 2 * pos + 1) else []
  }

  /** What `TraverseAndBuild` appends to `vHash` for one node. */
  function Hashes(h: PairHash, txids: seq<Hash>, match_: seq<bool>, height: nat, pos: nat): (r: seq<Hash>)
    requires |txids| == |match_| && pos < Width(|txids|, height)
    ensures |r| > 0
    decreases height
  {
    if !Descends(match_, height, pos) then [CalcHash(h, txids, height, pos)]
    else
      SpanSplit(|txids|, height, pos);
      Hashes(h, txids, match_, height - 1, 2 * pos) +
      if HasRight(|txids|, height, pos) then Hashes(h, txids, match_, height - 1, 2 * pos + 1) else []
  }

  datatype Extracted = Bad | Good(hash: Hash, nBits: nat, nHash: nat, found: seq<Hash>)

  /** `TraverseAndExtract` for one node, from the given positions in the two arrays; `Bad` stands for `fBad`. */
  function Extract(h: PairHash, n: nat, bits: seq<bool>, hashes: seq<Hash>, height: nat, pos: nat, nb: nat, nh: nat): (r: Extracted)
    decreases height
  {
    if nb >= |bits| then Bad
    else if height == 0 || !bits[nb] then
      if nh >= |hashes| then Bad
      else Good(hashes[nh], nb + 1, nh + 1, if height == 0 && bits[nb] then [hashes[nh]] else [])
    else
      var left := Extract(h, n, bits, hashes, height - 1, 2 * pos, nb + 1, nh);
      if left.Bad? then Bad
      else if HasRight(n, height, pos) then
        var right := Extract(h, n, bits, hashes, height - 1, 2 * pos + 1, left.nBits, left.nHash);
        if right.Bad? then Bad
        else Good(h(left.hash, right.hash), right.nBits, right.nHash, left.found + right.found)
      else Good(h(left.hash, left.hash), left.nBits, left.nHash, left.found)
  }

  /** `part` stands in `s` at position `i`. */
  predicate At<T(==)>(s: seq<T>, i: nat, part: seq<T>) {
    i + |part| <= |s| && s[i..i + |part|] == part
  }

  lemma AtConcat<T>(s: seq<T>, i: nat, p: seq<T>, q: seq<T>)
    requires At(s, i, p + q)
    ensures At(s, i, p) && At(s, i + |p|, q)
  {
    assert s[i..i + |p|] == s[i..i + |p + q|][..|p|];
    assert s[i + |p|..i + |p| + |q|] == s[i..i + |p + q|][|p|..];
  }

  predicate Faithful(h: PairHash, txids: seq<Hash>, match_: seq<bool>, height: nat, pos: nat, x: Extracted)
    requires |txids| == |match_| && pos < Width(|txids|, height)
  {
    x.Good? && x.hash == CalcHash(h, txids, height, pos) && x.found == MatchedBelow(txids, match_, height, pos)
  }

  /** The bits of a node that is descended into: a set bit, then its children's. */
  lemma BitsParts(match_: seq<bool>, height: nat, pos: nat, bits: seq<bool>, nb: nat) returns (lb: seq<bool>, rb: seq<bool>)
    requires Descends(match_, height, pos) && At(bits, nb, Bits(match_, height, pos))
    ensures lb == Bits(match_, height - 1, 2 * pos)
    ensures rb == if HasRight(|match_|, height, pos) then Bits(match_, height - 1, 2 * pos + 1) else []
    ensures nb < |bits| && bits[nb]
    ensures At(bits, nb + 1, lb) && At(bits, nb + 1 + |lb|, rb) && |Bits(match_, height, pos)| == 1 + |lb| + |rb|
  {
    lb := Bits(match_, height - 1, 2 * pos);
    rb := if HasRight(|match_|, height, pos) then Bits(match_, height - 1, 2 * pos + 1) else [];
    assert Bits(match_, height, pos) == [true] + (lb + rb);
    AtThree(bits, nb, true, lb, rb);
  }

  lemma AtThree<T>(s: seq<T>, i: nat, x: T, p: seq<T>, q: seq<T>)
    requires At(s, i, [x] + (p + q))
    ensures i < |s| && s[i] == x && At(s, i + 1, p) && At(s, i + 1 + |p|, q)
  {
    AtConcat(s, i, [x], p + q);
    AtConcat(s, i + 1, p, q);
    assert s[i] == s[i..i + 1][0];
  }

  lemma HashesParts(h: PairHash, txids: seq<Hash>, match_: seq<bool>, height: nat, pos: nat, hashes: seq<Hash>, nh: nat)
    returns (lh: seq<Hash>, rh: seq<Hash>)
    requires |txids| == |match_| && pos < Width(|txids|, height) && Descends(match_, height, pos)
    requires At(hashes, nh, Hashes(h, txids, match_, height, pos))
    ensures 2 * pos < Width(|txids|, height - 1)
    ensures lh == Hashes(h, txids, match_, height - 1, 2 * pos)
    ensures rh == if HasRight(|txids|, height, pos) then Hashes(h, txids, match_, height - 1, 2 * pos + 1) else []
    ensures At(hashes, nh, lh) && At(hashes, nh + |lh|, rh) && |Hashes(h, txids, match_, height, pos)| == |lh| + |rh|
  {
    SpanSplit(|txids|, height, pos);
    lh := Hashes(h, txids, match_, height - 1, 2 * pos);
    rh := if HasRight(|txids|, height, pos) then Hashes(h, txids, match_, height - 1, 2 * pos + 1) else [];
    AtConcat(hashes, nh, lh, rh);
  }

  lemma ExtractEnd(h: PairHash, txids: seq<Hash>, match_: seq<bool>, height: nat, pos: nat,
                   bits: seq<bool>, hashes: seq<Hash>, nb: nat, nh: nat)
    requires |txids| == |match_| && pos < Width(|txids|, height) && !Descends(match_, height, pos)
    requires At(bits, nb, Bits(match_, height, pos)) && At(hashes, nh, Hashes(h, txids, match_, height, pos))
    ensures |Bits(match_, height, pos)| == 1 && |Hashes(h, txids, match_, height, pos)| == 1
    ensures var x := Extract(h, |txids|, bits, hashes, height, pos, nb, nh);
            Faithful(h, txids, match_, height, pos, x) && x.nBits == nb + 1 && x.nHash == nh + 1
  {
    assert bits[nb] == bits[nb..nb + 1][0] && hashes[nh] == hashes[nh..nh + 1][0];
    if height == 0 {
      BelowLeaf(match_, pos);
      MatchedBelowLeaf(txids, match_, pos);
    }
  }

  /** Faithfully extracted children make a faithfully extracted node. */
  lemma ExtractJoinTwo(h: PairHash, txids: seq<Hash>, match_: seq<bool>, height: nat, pos: nat,
                       bits: seq<bool>, hashes: seq<Hash>, nb: nat, nh: nat, left: Extracted, right: Extracted)
    requires |txids| == |match_| && pos < Width(|txids|, height)
    requires HasRight(|txids|, height, pos) && nb < |bits| && bits[nb]
    requires left == Extract(h, |txids|, bits, hashes, height - 1, 2 * pos, nb + 1, nh) && left.Good?
    requires Faithful(h, txids, match_, height - 1, 2 * pos, left)
    requires right == Extract(h, |txids|, bits, hashes, height - 1, 2 * pos + 1, left.nBits, left.nHash)
    requires Faithful(h, txids, match_, height - 1, 2 * pos + 1, right)
    ensures var x := Extract(h, |txids|, bits, hashes, height, pos, nb, nh);
            Faithful(h, txids, match_, height, pos, x) && x.nBits == right.nBits && x.nHash == right.nHash
  {
    MatchedBelowSplit(txids, match_, height, pos);
  }

  lemma ExtractJoinOne(h: PairHash, txids: seq<Hash>, match_: seq<bool>, height: nat, pos: nat,
                       bits: seq<bool>, hashes: seq<Hash>, nb: nat, nh: nat, left: Extracted)
    requires |txids| == |match_| && height > 0 && pos < Width(|txids|, height) && 2 * pos < Width(|txids|, height - 1)
    requires !HasRight(|txids|, height, pos) && nb < |bits| && bits[nb]
    requires left == Extract(h, |txids|, bits, hashes, height - 1, 2 * pos, nb + 1, nh)
    requires Faithful(h, txids, match_, height - 1, 2 * pos, left)
    ensures var x := Extract(h, |txids|, bits, hashes, height, pos, nb, nh);
            Faithful(h, txids, match_, height, pos, x) && x.nBits == left.nBits && x.nHash == left.nHash
  {
    MatchedBelowSplit(txids, match_, height, pos);
  }

  /** Extracting what was built gives the node's hash and exactly its matched leaves, and uses all of it up. */
  lemma {:induction false} ExtractBuilt(h: PairHash, txids: seq<Hash>, match_: seq<bool>, height: nat, pos: nat,
                                        bits: seq<bool>, hashes: seq<Hash>, nb: nat, nh: nat) returns (x: Extracted)
    requires |txids| == |match_| && pos < Width(|txids|, height)
    requires At(bits, nb, Bits(match_, height, pos)) && At(hashes, nh, Hashes(h, txids, match_, height, pos))
    ensures x == Extract(h, |txids|, bits, hashes, height, pos, nb, nh)
    ensures Faithful(h, txids, match_, height, pos, x)
    ensures x.nBits == nb + |Bits(match_, height, pos)| && x.nHash == nh + |Hashes(h, txids, match_, height, pos)|
    decreases height
  {
    hide Hashes;
    hide Bits;
    hide Extract;
    hide At;
    hide CalcHash;
    hide Width;
    x := Extract(h, |txids|, bits, hashes, height, pos, nb, nh);
    if !Descends(match_, height, pos) {
      ExtractEnd(h, txids, match_, height, pos, bits, hashes, nb, nh);
    } else {
      var lb, rb := BitsParts(match_, height, pos, bits, nb);
      var lh, rh := HashesParts(h, txids, match_, height, pos, hashes, nh);
      var left := ExtractBuilt(h, txids, match_, height - 1, 2 * pos, bits, hashes, nb + 1, nh);
      if HasRight(|txids|, height, pos) {
        var right := ExtractBuilt(h, txids, match_, height - 1, 2 * pos + 1, bits, hashes, nb + 1 + |lb|, nh + |lh|);
        ExtractJoinTwo(h, txids, match_, height, pos, bits, hashes, nb, nh, left, right);
      } else {
        ExtractJoinOne(h, txids, match_, height, pos, bits, hashes, nb, nh, left);
      }
    }
  }

  // ---------------------------------------------------------------- soundness

  /** `found` are the ids at the strictly increasing positions `ps` between `lo` and `hi`. */
  predicate Selects(txids: seq<Hash>, found: seq<Hash>, ps: seq<nat>, lo: nat, hi: nat) {
    && hi <= |txids| && |ps| == |found|
    && (forall i :: 0 <= i < |ps| ==> lo <= ps[i] < hi && txids[ps[i]] == found[i])
    && (forall i, j :: 0 <= i < j < |ps| ==> ps[i] < ps[j])
  }

  /** A node of the tree, and the places in the two arrays from which it is read. */
  datatype Node = Node(height: nat, pos: nat, nb: nat, nh: nat)

  /** Extraction of one node comes to another. */
  predicate Visits(h: PairHash, n: nat, bits: seq<bool>, hashes: seq<Hash>, from: Node, to: Node)
    decreases from.height
  {
    || from == to
    || (&& from.height > 0 && from.nb < |bits| && bits[from.nb]
        && var below := LeftOf(from);
           var left := Extract(h, n, bits, hashes, below.height, below.pos, below.nb, below.nh);
           || Visits(h, n, bits, hashes, below, to)
           || (left.Good? && HasRight(n, from.height, from.pos) && Visits(h, n, bits, hashes, RightOf(from, left), to)))
  }

  function LeftOf(x: Node): Node
    requires x.height > 0
  {
    Node(x.height - 1, 2 * x.pos, x.nb + 1, x.nh)
  }

  function RightOf(x: Node, left: Extracted): Node
    requires x.height > 0 && left.Good?
  {
    Node(x.height - 1, 2 * x.pos + 1, left.nBits, left.nHash)
  }

  /** Where the ids found are, or a node at which the pair hash is broken. */
  datatype Evidence = Positions(ps: seq<nat>) | Broken(node: Node)

  /** The pair of hashes that extraction reads below an inner node. */
  function ReadPair(h: PairHash, n: nat, bits: seq<bool>, hashes: seq<Hash>, x: Node): Option<(Hash, Hash)>
    requires x.height > 0
  {
    var left := Extract(h, n, bits, hashes, x.height - 1, 2 * x.pos, x.nb + 1, x.nh);
    if left.Bad? then None
    else if !HasRight(n, x.height, x.pos) then Some((left.hash, left.hash))
    else
      var right := Extract(h, n, bits, hashes, x.height - 1, 2 * x.pos + 1, left.nBits, left.nHash);
      if right.Bad? then None else Some((left.hash, right.hash))
  }

  /** The pair of hashes that the true tree has below an inner node. */
  function TruePair(h: PairHash, txids: seq<Hash>, x: Node): (Hash, Hash)
    requires x.height > 0 && x.pos < Width(|txids|, x.height)
  {
    SpanSplit(|txids|, x.height, x.pos);
    var left := CalcHash(h, txids, x.height - 1, 2 * x.pos);
    (left, if HasRight(|txids|, x.height, x.pos) then CalcHash(h, txids, x.height - 1, 2 * x.pos + 1) else left)
  }

  /** Below this node the data supplied has another pair than the true tree, with the same hash. */
  predicate CollidesAt(h: PairHash, txids: seq<Hash>, bits: seq<bool>, hashes: seq<Hash>, x: Node) {
    && x.height > 0 && x.pos < Width(|txids|, x.height)
    && var read := ReadPair(h, |txids|, bits, hashes, x);
    && read.Some?
    && var p, q := read.value, TruePair(h, txids, x);
       p != q && h(p.0, p.1) == h(q.0, q.1)
  }

  /** What extraction of `top` found is in the block, or extraction came to a node with a collision. */
  predicate Supports(h: PairHash, txids: seq<Hash>, bits: seq<bool>, hashes: seq<Hash>, top: Node, found: seq<Hash>, e: Evidence) {
    match e
    case Positions(ps) => Selects(txids, found, ps, Lo(|txids|, top.height, top.pos), Hi(|txids|, top.height, top.pos))
    case Broken(x) => Visits(h, |txids|, bits, hashes, top, x) && CollidesAt(h, txids, bits, hashes, x)
  }

  lemma SelectsConcat(txids: seq<Hash>, a: seq<Hash>, pa: seq<nat>, b: seq<Hash>, pb: seq<nat>, lo: nat, mid: nat, hi: nat)
    requires Selects(txids, a, pa, lo, mid) && Selects(txids, b, pb, mid, hi) && lo <= mid <= hi
    ensures Selects(txids, a + b, pa + pb, lo, hi)
  {
  }

  /** A node with children read that are not the true ones is where the pair hash is broken. */
  lemma BrokenHere(h: PairHash, txids: seq<Hash>, bits: seq<bool>, hashes: seq<Hash>, x: Node)
    requires x.height > 0 && x.pos < Width(|txids|, x.height) && x.nb < |bits| && bits[x.nb]
    requires var r := Extract(h, |txids|, bits, hashes, x.height, x.pos, x.nb, x.nh); r.Good? && r.hash == CalcHash(h, txids, x.height, x.pos)
    ensures ReadPair(h, |txids|, bits, hashes, x).Some?
    ensures ReadPair(h, |txids|, bits, hashes, x).value != TruePair(h, txids, x) ==> CollidesAt(h, txids, bits, hashes, x)
  {
    SpanSplit(|txids|, x.height, x.pos);
  }

  /** What the children support, the node supports. */
  lemma SupportsLeft(h: PairHash, txids: seq<Hash>, bits: seq<bool>, hashes: seq<Hash>, x: Node, left: Extracted, e: Evidence)
    requires x.height > 0 && x.pos < Width(|txids|, x.height) && x.nb < |bits| && bits[x.nb]
    requires left == Extract(h, |txids|, bits, hashes, x.height - 1, 2 * x.pos, x.nb + 1, x.nh) && left.Good?
    requires Supports(h, txids, bits, hashes, LeftOf(x), left.found, e) && (e.Broken? || !HasRight(|txids|, x.height, x.pos))
    ensures Supports(h, txids, bits, hashes, x, left.found, e)
  {
    hide Extract, CollidesAt;
    SpanSplit(|txids|, x.height, x.pos);
  }

  lemma SupportsBoth(h: PairHash, txids: seq<Hash>, bits: seq<bool>, hashes: seq<Hash>, x: Node, left: Extracted, right: Extracted,
                     el: Evidence, er: Evidence) returns (e: Evidence)
    requires HasRight(|txids|, x.height, x.pos) && x.pos < Width(|txids|, x.height) && x.nb < |bits| && bits[x.nb]
    requires left == Extract(h, |txids|, bits, hashes, x.height - 1, 2 * x.pos, x.nb + 1, x.nh) && left.Good?
    requires right == Extract(h, |txids|, bits, hashes, x.height - 1, 2 * x.pos + 1, left.nBits, left.nHash) && right.Good?
    requires Supports(h, txids, bits, hashes, LeftOf(x), left.found, el) && el.Positions?
    requires Supports(h, txids, bits, hashes, RightOf(x, left), right.found, er)
    ensures Supports(h, txids, bits, hashes, x, left.found + right.found, e)
  {
    hide Extract, CollidesAt, Lo, Hi, Width;
    var n := |txids|;
    SpanSplit(n, x.height, x.pos);
    Span(n, x.height, x.pos);
    Span(n, x.height - 1, 2 * x.pos);
    Span(n, x.height - 1, 2 * x.pos + 1);
    if er.Broken? {
      return er;
    }
    SelectsConcat(txids, left.found, el.ps, right.found, er.ps, Lo(n, x.height, x.pos), Hi(n, x.height - 1, 2 * x.pos), Hi(n, x.height, x.pos));
    e := Positions(el.ps + er.ps);
  }

  /**
   * Whatever bits and hashes are supplied: if they hash to the true node, the ids found are real
   * ones, in order, or extraction comes to a node where they have another pair of children with
   * the same hash.
   */
  lemma {:induction false} ExtractSound(h: PairHash, txids: seq<Hash>, bits: seq<bool>, hashes: seq<Hash>, x: Node) returns (e: Evidence)
    requires x.pos < Width(|txids|, x.height)
    requires var r := Extract(h, |txids|, bits, hashes, x.height, x.pos, x.nb, x.nh); r.Good? && r.hash == CalcHash(h, txids, x.height, x.pos)
    ensures Supports(h, txids, bits, hashes, x, Extract(h, |txids|, bits, hashes, x.height, x.pos, x.nb, x.nh).found, e)
    decreases x.height
  {
    hide Supports, CollidesAt, CalcHash, Width;
    var n := |txids|;
    if x.height == 0 || !bits[x.nb] {
      e := EndSound(h, txids, bits, hashes, x);
    } else {
      SpanSplit(n, x.height, x.pos);
      BrokenHere(h, txids, bits, hashes, x);
      if ReadPair(h, n, bits, hashes, x).value != TruePair(h, txids, x) {
        BrokenSupports(h, txids, bits, hashes, x);
        return Broken(x);
      }
      var left := Extract(h, n, bits, hashes, x.height - 1, 2 * x.pos, x.nb + 1, x.nh);
      var el := ExtractSound(h, txids, bits, hashes, LeftOf(x));
      if el.Broken? || !HasRight(n, x.height, x.pos) {
        SupportsLeft(h, txids, bits, hashes, x, left, el);
        BrokenAnyway(h, txids, bits, hashes, x, left.found, el);
        return el;
      }
      var right := Extract(h, n, bits, hashes, x.height - 1, 2 * x.pos + 1, left.nBits, left.nHash);
      var er := ExtractSound(h, txids, bits, hashes, RightOf(x, left));
      e := SupportsBoth(h, txids, bits, hashes, x, left, right, el, er);
    }
  }

  lemma BrokenSupports(h: PairHash, txids: seq<Hash>, bits: seq<bool>, hashes: seq<Hash>, x: Node)
    requires CollidesAt(h, txids, bits, hashes, x)
    ensures forall found :: Supports(h, txids, bits, hashes, x, found, Broken(x))
  {
  }

  lemma BrokenAnyway(h: PairHash, txids: seq<Hash>, bits: seq<bool>, hashes: seq<Hash>, x: Node, found: seq<Hash>, e: Evidence)
    requires Supports(h, txids, bits, hashes, x, found, e)
    ensures e.Broken? ==> forall other :: Supports(h, txids, bits, hashes, x, other, e)
  {
  }

  lemma EndSound(h: PairHash, txids: seq<Hash>, bits: seq<bool>, hashes: seq<Hash>, x: Node) returns (e: Evidence)
    requires x.pos < Width(|txids|, x.height)
    requires var r := Extract(h, |txids|, bits, hashes, x.height, x.pos, x.nb, x.nh); r.Good? && r.hash == CalcHash(h, txids, x.height, x.pos)
    requires x.height == 0 || !bits[x.nb]
    ensures e.Positions? && Supports(h, txids, bits, hashes, x, Extract(h, |txids|, bits, hashes, x.height, x.pos, x.nb, x.nh).found, e)
  {
    Span(|txids|, x.height, x.pos);
    e := Positions(if x.height == 0 && bits[x.nb] then [x.pos] else []);
  }
}
