/**
 * The walk along the skip list of block index entries, and how long it is (`GetSkipHeight`,
 * `CBlockIndex::GetAncestor`, src/main.cpp).
 */
module SkipList {
  import opened Common

  // ---------------------------------------------------------------- skip heights

  /** `n & (n - 1)`: clear the lowest set bit. */
  function InvertLowestOne(n: nat): (r: nat)
    ensures n > 0 ==> r < n
    ensures n == 0 ==> r == 0
  {
    if n == 0 then 0 else if n % 2 == 1 then n - 1 else 2 * InvertLowestOne(n / 2)
  }

  function GetSkipHeight(height: nat): (r: nat)
    ensures height > 0 ==> r < height
  {
    if height < 2 then 0
    else if height % 2 == 1 then InvertLowestOne(InvertLowestOne(height - 1)) + 1
    else InvertLowestOne(height)
  }

  /** Does the walk to `height` follow the skip pointer? Not if the one of the predecessor is better. */
  predicate Jumps(walk: nat, height: nat)
    requires height < walk
  {
    var skip, skipPrev := GetSkipHeight(walk), GetSkipHeight(walk - 1);
    skip == height || (skip > height && !(skipPrev < skip - 2 && skipPrev >= height))
  }

  function Next(walk: nat, height: nat): (r: nat)
    requires height < walk
    ensures height <= r < walk
  {
    if Jumps(walk, height) then GetSkipHeight(walk) else walk - 1
  }

  /** The number of steps of the walk. */
  function Steps(walk: nat, height: nat): nat
    requires height <= walk
    decreases walk
  {
    if walk == height then 0 else 1 + Steps(Next(walk, height), height)
  }

  // ---------------------------------------------------------------- odd and even

  ghost predicate Odd(n: nat) {
    n > 0 && !Odd(n - 1)
  }

  lemma {:induction false} OddDouble(m: nat)
    ensures !Odd(2 * m) && Odd(2 * m + 1)
  {
    if m > 0 {
      OddDouble(m - 1);
      assert 2 * m - 1 == 2 * (m - 1) + 1;
    }
  }

  lemma {:induction false} OddForm(n: nat) returns (m: nat)
    ensures n == 2 * m + if Odd(n) then 1 else 0
  {
    if n < 2 {
      m := 0;
    } else {
      m := OddForm(n - 2);
      m := m + 1;
    }
  }

  lemma {:induction false} OddMod(n: nat)
    ensures Odd(n) <==> n % 2 == 1
  {
    var m := OddForm(n);
  }

  // ---------------------------------------------------------------- multiples of powers of two

  /** Is a number a multiple of 2^i? */
  predicate Multiple(n: nat, i: nat) {
    i == 0 || (n % 2 == 0 && Multiple(n / 2, i - 1))
  }

  /** The position of the lowest set bit. */
  function LowestOne(n: nat): nat
    requires n > 0
  {
    if n % 2 == 1 then 0 else 1 + LowestOne(n / 2)
  }

  lemma {:induction false} LowestOneIs(n: nat)
    requires n > 0
    ensures var i := LowestOne(n); InvertLowestOne(n) + Pow2(i) == n && Multiple(InvertLowestOne(n), i + 1) && Multiple(n, i)
  {
    if n % 2 == 1 {
      assert Multiple((n - 1) / 2, 0);
    } else {
      LowestOneIs(n / 2);
    }
  }

  lemma {:induction false} MultipleLess(n: nat, i: nat, k: nat)
    requires Multiple(n, i) && k <= i
    ensures Multiple(n, k)
  {
    if k > 0 {
      MultipleLess(n / 2, i - 1, k - 1);
    }
  }

  lemma {:induction false} MultipleZero(i: nat)
    ensures Multiple(0, i)
  {
    if i > 0 {
      MultipleZero(i - 1);
    }
  }

  lemma {:induction false} LowestOneAbove(n: nat, i: nat)
    requires n > 0 && Multiple(n, i)
    ensures LowestOne(n) >= i
  {
    if i > 0 {
      LowestOneAbove(n / 2, i - 1);
    }
  }

  /** There is no multiple between two neighbouring ones. */
  lemma {:induction false} NoneBetween(base: nat, n: nat, i: nat)
    requires Multiple(base, i) && base < n < base + Pow2(i)
    ensures !Multiple(n, i)
    decreases i
  {
    if i > 0 && n % 2 == 0 {
      NoneBetween(base / 2, n / 2, i - 1);
    }
  }

  /** Two heights in the block of 2^j heights that starts at `base`. */
  predicate InBlock(base: nat, j: nat, low: nat, high: nat) {
    Multiple(base, j) && base <= low <= high < base + Pow2(j)
  }

  /** Below a height, down to where its lowest bit is cleared, is a block. */
  lemma BelowIsBlock(n: nat, low: nat)
    requires n > 0 && InvertLowestOne(n) <= low < n
    ensures InBlock(InvertLowestOne(n), LowestOne(n), low, n - 1)
  {
    hide Multiple, InvertLowestOne, LowestOne, Pow2;
    LowestOneIs(n);
    MultipleLess(InvertLowestOne(n), LowestOne(n) + 1, LowestOne(n));
  }

  /** A height inside a block has a set bit below the block's size. */
  lemma BitInside(base: nat, j: nat, low: nat, high: nat)
    requires InBlock(base, j, low, high) && low < high
    ensures LowestOne(high) < j
  {
    hide Multiple, LowestOne, InvertLowestOne, Pow2;
    NoneBetween(base, high, j);
    LowestOneIs(high);
    if LowestOne(high) >= j {
      MultipleLess(high, LowestOne(high), j);
    }
  }

  /** What is left after clearing a bit has its next one higher up. */
  lemma NextBit(n: nat)
    requires n > 0 && InvertLowestOne(n) > 0
    ensures LowestOne(InvertLowestOne(n)) > LowestOne(n)
  {
    hide Multiple, LowestOne, InvertLowestOne;
    LowestOneIs(n);
    LowestOneAbove(InvertLowestOne(n), LowestOne(n) + 1);
  }

  // ---------------------------------------------------------------- one step

  /** From an odd height, the skip pointer is followed whenever it does not lead too far. */
  lemma {:induction false} OddJumps(h: nat, t: nat)
    requires Odd(h) && t < h
    ensures Jumps(h, t) <==> GetSkipHeight(h) >= t
    ensures h > 1 ==> GetSkipHeight(h) == InvertLowestOne(InvertLowestOne(h - 1)) + 1
  {
    if h > 1 {
      EvenSkip(h - 1);
      OddSkip(h);
      hide InvertLowestOne, GetSkipHeight;
    }
  }

  lemma {:induction false} EvenSkip(h: nat)
    requires !Odd(h) && h > 0
    ensures GetSkipHeight(h) == InvertLowestOne(h) && h > 1
  {
    hide InvertLowestOne;
    OddMod(h);
  }

  lemma {:induction false} OddSkip(h: nat)
    requires Odd(h) && h > 1
    ensures GetSkipHeight(h) == InvertLowestOne(InvertLowestOne(h - 1)) + 1
  {
    hide InvertLowestOne;
    OddMod(h);
  }

  lemma {:induction false} ClearDouble(m: nat)
    ensures InvertLowestOne(2 * m) == 2 * InvertLowestOne(m)
  {
  }

  lemma {:induction false} ClearOdd(m: nat)
    ensures InvertLowestOne(2 * m + 1) == 2 * m
  {
  }

  lemma {:induction false} ClearEven(n: nat)
    requires !Odd(n)
    ensures !Odd(InvertLowestOne(n))
  {
    hide InvertLowestOne;
    var m := OddForm(n);
    ClearDouble(m);
    OddDouble(InvertLowestOne(m));
  }

  /** Clearing the second bit, or the third. */
  lemma {:induction false} ClearLow(q: nat)
    ensures InvertLowestOne(4 * q + 2) == 4 * q && InvertLowestOne(8 * q + 4) == 8 * q
  {
    hide InvertLowestOne;
    ClearOdd(q);
    ClearDouble(2 * q + 1);
    assert 2 * (2 * q + 1) == 4 * q + 2;
    ClearDouble(4 * q + 2);
    assert 2 * (4 * q + 2) == 8 * q + 4;
  }

  lemma {:induction false} ClearHigh(q: nat)
    requires q > 0
    ensures InvertLowestOne(8 * q) <= 8 * q - 8
  {
    hide InvertLowestOne;
    ClearDouble(q);
    ClearDouble(2 * q);
    ClearDouble(4 * q);
    assert 2 * (2 * q) == 4 * q && 2 * (4 * q) == 8 * q;
  }

  /** The skip height of the predecessor of a multiple of eight. */
  lemma {:induction false} SkipBelowHigh(q: nat)
    requires q > 0
    ensures GetSkipHeight(8 * q - 1) == 8 * q - 7
  {
    hide InvertLowestOne, GetSkipHeight;
    OddDouble(4 * q - 1);
    assert 2 * (4 * q - 1) == 8 * q - 2 == 4 * (2 * q - 1) + 2;
    OddSkip(8 * q - 1);
    ClearLow(2 * q - 1);
    assert 4 * (2 * q - 1) == 8 * (q - 1) + 4;
    ClearLow(q - 1);
  }

  /** That of a height whose lowest set bit is the third. */
  lemma {:induction false} SkipBelowThird(q: nat)
    ensures GetSkipHeight(8 * q + 3) == InvertLowestOne(8 * q) + 1
  {
    hide InvertLowestOne, GetSkipHeight;
    OddDouble(4 * q + 1);
    assert 2 * (4 * q + 1) == 8 * q + 2 == 4 * (2 * q) + 2;
    OddSkip(8 * q + 3);
    ClearLow(2 * q);
  }

  /** That of a height whose lowest set bit is the second. */
  lemma {:induction false} SkipBelowSecond(q: nat)
    requires q > 0
    ensures GetSkipHeight(4 * q + 1) == InvertLowestOne(InvertLowestOne(4 * q)) + 1
  {
    hide InvertLowestOne, GetSkipHeight;
    OddDouble(2 * q);
    assert 2 * (2 * q) == 4 * q;
    OddSkip(4 * q + 1);
  }

  /** The lowest set bit of an even height is the second, the third, or a higher one. */
  datatype Shape = Second(q: nat) | Third(q: nat) | High(q: nat)

  predicate HasShape(h: nat, x: Shape) {
    match x
    case Second(q) => h == 4 * q + 2
    case Third(q) => h == 8 * q + 4
    case High(q) => h == 8 * q && q > 0
  }

  lemma {:induction false} ShapeOf(h: nat) returns (x: Shape)
    requires !Odd(h) && h > 0
    ensures HasShape(h, x)
  {
    hide Odd;
    var m := OddForm(h);
    var n := OddForm(m);
    if Odd(m) {
      return Second(n);
    }
    var q := OddForm(n);
    x := if Odd(n) then Third(q) else High(q);
  }

  lemma {:induction false} ShapeEven(h: nat, x: Shape)
    requires HasShape(h, x)
    ensures !Odd(h) && h > 0
  {
    hide Odd;
    OddDouble(2 * x.q + 1);
    OddDouble(4 * x.q + 2);
    OddDouble(4 * x.q);
  }

  /** Clearing the lowest bit, and the skip height of the predecessor. */
  lemma {:induction false} ShapeSkips(h: nat, x: Shape)
    requires HasShape(h, x)
    ensures h > 1 && GetSkipHeight(h) == InvertLowestOne(h)
    ensures x.High? ==> GetSkipHeight(h - 1) > InvertLowestOne(h)
    ensures x.Third? ==> GetSkipHeight(h - 1) == InvertLowestOne(InvertLowestOne(h)) + 1
    ensures x.Second? && h > 2 ==> GetSkipHeight(h - 1) == InvertLowestOne(InvertLowestOne(InvertLowestOne(h))) + 1
    ensures x.Second? && h == 2 ==> InvertLowestOne(h) == 0
  {
    hide InvertLowestOne, GetSkipHeight;
    ShapeEven(h, x);
    EvenSkip(h);
    match x
    case High(q) =>
      ClearHigh(q);
      SkipBelowHigh(q);
    case Third(q) =>
      ClearLow(q);
      SkipBelowThird(q);
    case Second(q) =>
      ClearLow(q);
      if q > 0 {
        SkipBelowSecond(q);
      }
  }

  /** Below a multiple of eight the predecessor's skip pointer is never better. */
  lemma {:induction false} HighJumps(h: nat, t: nat, x: Shape)
    requires HasShape(h, x) && x.High? && t < h
    ensures GetSkipHeight(h) == InvertLowestOne(h) && (Jumps(h, t) <==> InvertLowestOne(h) >= t)
  {
    ShapeSkips(h, x);
    hide InvertLowestOne, GetSkipHeight, HasShape;
  }

  /** A skip pointer that leads too far is not followed. */
  lemma {:induction false} Blocked(h: nat, t: nat)
    requires !Odd(h) && InvertLowestOne(h) < t < h
    ensures Steps(h, t) == 1 + Steps(h - 1, t)
  {
    hide InvertLowestOne;
    EvenSkip(h);
  }

  /** Two bits above the target, the walk clears one, if it can, and is blocked then. */
  lemma {:induction false} TwoAbove(g: nat, t: nat)
    requires !Odd(g) && InvertLowestOne(InvertLowestOne(g)) + 1 < t < g
    ensures var g2 := InvertLowestOne(g);
            if g2 < t then Steps(g, t) == 1 + Steps(g - 1, t)
            else Steps(g, t) == (if g2 == t then 1 else 2 + Steps(g2 - 1, t))
  {
    hide InvertLowestOne, Steps, Jumps, GetSkipHeight;
    var g2 := InvertLowestOne(g);
    ClearEven(g);
    if g2 < t {
      Blocked(g, t);
    } else {
      TwoAboveJumps(g, t);
      Jumped(g, t);
      if g2 > t {
        Blocked(g2, t);
      } else {
        NoSteps(t);
      }
    }
  }

  lemma NoSteps(t: nat)
    ensures Steps(t, t) == 0
  {
  }

  lemma Jumped(g: nat, t: nat)
    requires t < g && Jumps(g, t)
    ensures t <= GetSkipHeight(g) && Steps(g, t) == 1 + Steps(GetSkipHeight(g), t)
  {
  }

  lemma {:induction false} TwoAboveJumps(g: nat, t: nat)
    requires !Odd(g) && InvertLowestOne(InvertLowestOne(g)) + 1 < t <= InvertLowestOne(g) && t < g
    ensures Jumps(g, t) && GetSkipHeight(g) == InvertLowestOne(g)
  {
    var x := ShapeOf(g);
    ShapeSkips(g, x);
    hide InvertLowestOne, GetSkipHeight, HasShape;
  }

  lemma OneStep(t: nat)
    ensures Steps(t + 1, t) == 1
  {
    hide GetSkipHeight, Jumps;
    assert Next(t + 1, t) == t;
  }

  // ---------------------------------------------------------------- how many steps

  /** The bound on walks from an odd height inside a block of 2^j heights. */
  function OddBound(j: nat): nat {
    if j <= 2 then j else if j == 3 then 4 else OddBound(j - 1) + (j + 3) / 2
  }

  /** As much is left after two bits above the target. */
  function Rest(i: nat): nat {
    if i == 2 then 1 else OddBound(i)
  }

  lemma {:induction false} OddBoundRises(i: nat, j: nat)
    requires i <= j
    ensures OddBound(i) <= OddBound(j) && OddBound(j) >= j
    ensures i < j && i >= 2 ==> 3 + Rest(i) + (i - 2) / 2 <= OddBound(j) && 2 + OddBound(i) + (i - 1) / 2 <= OddBound(j)
    ensures i < j && j >= 3 ==> OddBound(i) + 2 <= OddBound(j)
    decreases j
  {
    if i < j {
      OddBoundRises(i, j - 1);
    } else if j > 0 {
      OddBoundRises(j - 1, j - 1);
    }
  }

  /** A walk from an odd height; the higher the lowest set bit above the last one, the shorter. */
  lemma {:induction false} OddSteps(h: nat, t: nat, base: nat, j: nat, a: nat)
    requires Odd(h) && t < h && InBlock(base, j, t, h) && 1 <= a <= j + 1 && Multiple(h - 1, a)
    ensures Steps(h, t) + (a - 1) / 2 <= OddBound(j)
    decreases h
  {
    hide Multiple, InvertLowestOne, LowestOne, Steps, Jumps, GetSkipHeight, OddBound, Pow2;
    OddBoundRises(j, j);
    assert j > 0 by { BlockOfTwo(base, j, t, h); }
    OddJumps(h, t);
    var s := GetSkipHeight(h);
    if s >= t {
      Jumped(h, t);
      if s == t {
        NoSteps(t);
      } else {
        OddJumpStays(h, t, base, j, a);
        OddSteps(s, t, base, j, a + 2);
      }
    } else {
      SteppedDown(h, t);
      if h - 1 == t {
        NoSteps(t);
      } else {
        OddDown(h - 1, t, base, j, a);
      }
    }
  }

  lemma BlockOfTwo(base: nat, j: nat, t: nat, h: nat)
    requires InBlock(base, j, t, h) && t < h
    ensures j > 0
  {
  }

  lemma SteppedDown(h: nat, t: nat)
    requires t < h && !Jumps(h, t)
    ensures Steps(h, t) == 1 + Steps(h - 1, t)
  {
  }

  /** Following the skip pointer of an odd height clears two more bits inside the block. */
  lemma {:induction false} OddJumpStays(h: nat, t: nat, base: nat, j: nat, a: nat)
    requires Odd(h) && InBlock(base, j, t, h) && 1 <= a && Multiple(h - 1, a) && t < GetSkipHeight(h)
    ensures var s := GetSkipHeight(h); Odd(s) && InBlock(base, j, t, s) && a + 2 <= j + 1 && Multiple(s - 1, a + 2)
  {
    assert h > 1;
    OddSkip(h);
    hide Multiple, InvertLowestOne, LowestOne, Pow2, GetSkipHeight;
    var g := h - 1;
    var g2 := InvertLowestOne(g);
    ClearEven(g);
    ClearEven(g2);
    LowestOneAbove(g, a);
    if g2 == 0 {
      MultipleZero(a + 2);
      BitInside(base, j, t, g);
    } else {
      NextBit(g);
      LowestOneIs(g2);
      BitInside(base, j, t, g2);
      MultipleLess(InvertLowestOne(g2), LowestOne(g2) + 1, a + 2);
    }
  }

  /** From the even height below an odd one whose skip pointer leads too far, at most three steps lead into a smaller block. */
  lemma {:induction false} OddDown(g: nat, t: nat, base: nat, j: nat, a: nat)
    requires !Odd(g) && t < g && InBlock(base, j, t, g) && 1 <= a && Multiple(g, a)
    requires InvertLowestOne(InvertLowestOne(g)) + 1 < t
    ensures 1 + Steps(g, t) + (a - 1) / 2 <= OddBound(j)
    decreases g
  {
    hide Multiple, InvertLowestOne, LowestOne, Steps, OddBound, Pow2;
    var g2, i := InvertLowestOne(g), LowestOne(g);
    LowestOneAbove(g, a);
    BitInside(base, j, t, g);
    OddBoundRises(j, j);
    TwoAbove(g, t);
    ClearEven(g);
    if g2 < t {
      if g - 1 == t {
        NoSteps(t);
      } else {
        BelowIsBlock(g, t);
        OneBit(g, t);
        OddSteps(g - 1, t, g2, i, 1);
        OddBoundRises(i, j);
      }
    } else if g2 > t {
      NextBit(g);
      BitInside(base, j, t, g2);
      OddRest(g2, t);
      OddBoundRises(LowestOne(g2), j);
    }
  }

  /** Room for two heights between means a bit above the second. */
  lemma {:induction false} OneBit(g: nat, t: nat)
    requires !Odd(g) && InvertLowestOne(g) < t < g - 1
    ensures LowestOne(g) >= 2 && Multiple(g - 2, 1)
  {
    hide InvertLowestOne, LowestOne, Multiple;
    EvenMultiple(g - 2);
    LowestOneIs(g);
    OnePow(LowestOne(g));
  }

  lemma OnePow(i: nat)
    ensures Pow2(i) > 2 ==> i >= 2
  {
  }

  lemma {:induction false} EvenMultiple(n: nat)
    requires !Odd(n)
    ensures Multiple(n, 1)
  {
    OddMod(n);
    assert Multiple(n / 2, 0);
  }

  lemma {:induction false} OddRest(g: nat, t: nat)
    requires !Odd(g) && InvertLowestOne(g) + 1 < t < g && LowestOne(g) >= 2
    ensures Steps(g - 1, t) <= Rest(LowestOne(g))
    decreases g, 0
  {
    hide Multiple, InvertLowestOne, LowestOne, Steps, OddBound, Pow2;
    var i := LowestOne(g);
    OddBoundRises(i, i);
    if g - 1 == t {
      NoSteps(t);
    } else {
      LowestOneIs(g);
      if i == 2 {
        assert Pow2(2) == 4 by { FourIsPow(); }
        OneStep(t);
      } else {
        BelowIsBlock(g, t);
        OneBit(g, t);
        OddSteps(g - 1, t, InvertLowestOne(g), i, 1);
      }
    }
  }

  lemma FourIsPow()
    ensures Pow2(2) == 4
  {
  }

  /** From an even height the walk may clear one bit after the other before it is blocked. */
  lemma {:induction false} EvenSteps(h: nat, t: nat, base: nat, j: nat, a: nat)
    requires t < h && InBlock(base, j, t, h) && a >= 3 && Multiple(h, a)
    ensures j > a && Steps(h, t) + (a - 3) <= OddBound(j - 1) + (j - 3)
    decreases h
  {
    hide Multiple, InvertLowestOne, LowestOne, Steps, Jumps, GetSkipHeight, OddBound, Pow2;
    var s, i := InvertLowestOne(h), LowestOne(h);
    LowestOneAbove(h, a);
    BitInside(base, j, t, h);
    OddBoundRises(i, j - 1);
    var x := MultipleOfEight(h, a);
    HighJumps(h, t, x);
    ShapeEven(h, x);
    hide HasShape;
    if s < t {
      Blocked(h, t);
      if h - 1 == t {
        NoSteps(t);
      } else {
        BelowIsBlock(h, t);
        OneBit(h, t);
        OddSteps(h - 1, t, s, i, 1);
      }
    } else {
      Jumped(h, t);
      if s == t {
        NoSteps(t);
      } else {
        LowestOneIs(h);
        MultipleLess(s, i + 1, a + 1);
        EvenSteps(s, t, base, j, a + 1);
      }
    }
  }

  lemma {:induction false} MultipleOfEight(h: nat, a: nat) returns (x: Shape)
    requires Multiple(h, a) && a >= 3 && h > 0
    ensures x.High? && HasShape(h, x)
  {
    var m := h / 2;
    assert h == 2 * m && Multiple(m, a - 1);
    var n := m / 2;
    assert m == 2 * n && Multiple(n, a - 2);
    var q := n / 2;
    assert n == 2 * q;
    x := High(q);
  }

  /** The bound on all walks inside a block of 2^j heights. */
  function StepBound(j: nat): nat {
    if j == 0 then 1 else Max(1 + OddBound(j), OddBound(j - 1) + j - 3)
  }

  /** Blocked at an even height. */
  lemma {:induction false} BlockedSteps(h: nat, t: nat, base: nat, j: nat)
    requires !Odd(h) && InBlock(base, j, t, h) && InvertLowestOne(h) < t < h
    ensures j > 0 && Steps(h, t) <= 1 + OddBound(j - 1)
  {
    hide Multiple, InvertLowestOne, LowestOne, Steps, OddBound, Pow2;
    BitInside(base, j, t, h);
    OddBoundRises(LowestOne(h), j - 1);
    Blocked(h, t);
    if h - 1 == t {
      NoSteps(t);
    } else {
      BelowIsBlock(h, t);
      OneBit(h, t);
      OddSteps(h - 1, t, InvertLowestOne(h), LowestOne(h), 1);
    }
  }

  /** Two bits above the target. */
  lemma {:induction false} TwoAboveSteps(h: nat, t: nat, base: nat, j: nat)
    requires !Odd(h) && t < h && InBlock(base, j, t, h) && InvertLowestOne(InvertLowestOne(h)) + 1 < t
    ensures j > 0 && Steps(h, t) <= 2 + OddBound(j - 1)
  {
    hide Multiple, InvertLowestOne, LowestOne, Steps, OddBound, Pow2;
    BlockOfTwo(base, j, t, h);
    var g := InvertLowestOne(h);
    TwoAbove(h, t);
    ClearEven(h);
    if g < t {
      BlockedSteps(h, t, base, j);
    } else if g > t {
      BlockedSteps(g, t, base, j);
      Blocked(g, t);
    }
  }

  /** One step down to an odd height in the same block. */
  lemma {:induction false} DownSteps(h: nat, t: nat, base: nat, j: nat)
    requires !Odd(h) && t < h - 1 && InBlock(base, j, t, h) && !Jumps(h, t)
    ensures Steps(h, t) <= 1 + OddBound(j)
  {
    hide InvertLowestOne, Steps, Jumps, OddBound, Pow2;
    EvenMultiple(h - 2);
    SteppedDown(h, t);
    BlockOfTwo(base, j, t, h);
    OddSteps(h - 1, t, base, j, 1);
  }

  lemma {:induction false} BlockSteps(h: nat, t: nat, base: nat, j: nat)
    requires t < h && InBlock(base, j, t, h)
    ensures j > 0 && Steps(h, t) <= StepBound(j)
  {
    hide InvertLowestOne, Steps, Jumps, GetSkipHeight, OddBound, Pow2, Multiple;
    BlockOfTwo(base, j, t, h);
    OddBoundRises(j - 1, j);
    var s := InvertLowestOne(h);
    if Odd(h) {
      EvenMultiple(h - 1);
      OddSteps(h, t, base, j, 1);
    } else if s < t {
      BlockedSteps(h, t, base, j);
    } else {
      var x := ShapeOf(h);
      if x.High? {
        HighMultiple(x.q);
        EvenSteps(h, t, base, j, 3);
      } else {
        LowSteps(h, t, base, j, x);
      }
    }
  }

  lemma {:induction false} HighMultiple(q: nat)
    ensures Multiple(8 * q, 3)
  {
    assert Multiple(q, 0);
    assert Multiple(2 * q, 1) by { assert 2 * q / 2 == q; }
    assert Multiple(4 * q, 2) by { assert 4 * q / 2 == 2 * q; }
    assert 8 * q / 2 == 4 * q;
  }

  /** From a height whose lowest set bit is the second or the third. */
  lemma {:induction false} LowSteps(h: nat, t: nat, base: nat, j: nat, x: Shape)
    requires HasShape(h, x) && !x.High? && InBlock(base, j, t, h) && t <= InvertLowestOne(h) && t < h
    ensures Steps(h, t) <= 1 + OddBound(j)
  {
    hide InvertLowestOne, LowestOne, Steps, OddBound, Pow2, Multiple, Jumps, GetSkipHeight;
    BlockOfTwo(base, j, t, h);
    ShapeEven(h, x);
    hide HasShape;
    var s := InvertLowestOne(h);
    if Jumps(h, t) {
      Jumped(h, t);
      LowJump(h, t, x);
      ClearEven(h);
      if s == t {
        NoSteps(t);
      } else {
        EvenBit(h);
        NextBit(h);
        BitInside(base, j, t, s);
        OddBoundRises(j - 1, j);
        if InvertLowestOne(s) < t {
          BlockedSteps(s, t, base, j);
        } else {
          TwoAboveSteps(s, t, base, j);
        }
      }
    } else {
      NotJumped(h, t);
      DownSteps(h, t, base, j);
    }
  }

  lemma {:induction false} EvenBit(h: nat)
    requires !Odd(h) && h > 0
    ensures LowestOne(h) >= 1
  {
    OddMod(h);
  }

  lemma NotJumped(h: nat, t: nat)
    requires !Odd(h) && t <= InvertLowestOne(h) && t < h && !Jumps(h, t)
    ensures t < h - 1
  {
    hide InvertLowestOne;
    EvenSkip(h);
  }

  /** If the skip pointer is followed there, not much is left to clear. */
  lemma {:induction false} LowJump(h: nat, t: nat, x: Shape)
    requires HasShape(h, x) && !x.High? && t <= InvertLowestOne(h) && t < h && Jumps(h, t)
    ensures var s := InvertLowestOne(h);
            GetSkipHeight(h) == s && (s == t || InvertLowestOne(s) < t || InvertLowestOne(InvertLowestOne(s)) + 1 < t)
  {
    ShapeSkips(h, x);
    hide InvertLowestOne, GetSkipHeight;
    var s := InvertLowestOne(h);
    if s > t {
      LowGap(h, x);
    }
  }

  /** The skip pointer of the predecessor leads clearly further. */
  lemma {:induction false} LowGap(h: nat, x: Shape)
    requires HasShape(h, x) && !x.High? && InvertLowestOne(h) > 0
    ensures var s := InvertLowestOne(h);
            if x.Third? then InvertLowestOne(s) + 1 < s - 2 else InvertLowestOne(InvertLowestOne(s)) + 1 < s - 2
  {
    hide InvertLowestOne;
    match x
    case Third(q) =>
      ClearLow(q);
      ClearHigh(q);
    case Second(q) =>
      ClearLow(q);
      ClearDouble(q);
      ClearDouble(2 * q);
      assert 2 * (2 * q) == 4 * q;
  }

  lemma {:induction false} PowerIsMultiple(k: nat)
    ensures Multiple(Pow2(k), k) && InvertLowestOne(Pow2(k)) == 0 && LowestOne(Pow2(k)) == k
  {
    if k > 0 {
      PowerIsMultiple(k - 1);
    }
  }

  /** However high a block is, up to 2^k, every ancestor is reached in this many steps. */
  lemma StepsWithin(h: nat, t: nat, k: nat)
    requires t <= h <= Pow2(k)
    ensures Steps(h, t) <= StepBound(k)
  {
    hide InvertLowestOne, LowestOne, Steps, OddBound, Pow2, Multiple;
    if h == t {
      NoSteps(t);
    } else if h < Pow2(k) {
      MultipleZero(k);
      BlockSteps(h, t, 0, k);
    } else {
      TopSteps(t, k);
    }
  }

  lemma TopSteps(t: nat, k: nat)
    requires t < Pow2(k)
    ensures Steps(Pow2(k), t) <= StepBound(k)
  {
    hide InvertLowestOne, LowestOne, OddBound, Multiple;
    PowerIsMultiple(k);
    OddBoundRises(k, k);
    var h := Pow2(k);
    if k == 0 {
      OneStep(0);
    } else if t == 0 {
      PowEven(k);
      EvenSkip(h);
      Jumped(h, 0);
    } else {
      PowEven(k);
      Blocked(h, t);
      if h - 1 > t {
        BelowIsBlock(h, t);
        OneBit(h, t);
        OddSteps(h - 1, t, 0, k, 1);
      }
    }
  }

  /** The bound grows with the square of the logarithm. */
  lemma {:induction false} OddBoundSquare(j: nat)
    ensures 4 * OddBound(j) <= j * j + 7 * j
  {
    if j > 3 {
      OddBoundSquare(j - 1);
      assert (j - 1) * (j - 1) == j * j - 2 * j + 1;
    }
  }

  /** The number of steps is at most quadratic in the number of bits of the height. */
  lemma StepsSquare(h: nat, t: nat, k: nat)
    requires t <= h <= Pow2(k)
    ensures 4 * Steps(h, t) <= k * k + 9 * k + 4
  {
    hide Steps, OddBound, Pow2;
    StepsWithin(h, t, k);
    OddBoundSquare(k);
    if k > 0 {
      OddBoundSquare(k - 1);
      assert (k - 1) * (k - 1) == k * k - 2 * k + 1;
    }
  }

  /** Up to height 2^18 no walk takes more than 110 steps. */
  lemma AtMost110(h: nat, t: nat)
    requires t <= h <= 0x4_0000
    ensures Steps(h, t) <= 110
  {
    assert Pow2(8) == 256;
    assert Pow2(16) == 0x1_0000;
    assert Pow2(18) == 0x4_0000;
    assert OddBound(9) == 31;
    assert OddBound(17) == 95 && OddBound(18) == 105;
    hide Steps, OddBound, Pow2;
    StepsWithin(h, t, 18);
  }

  // ---------------------------------------------------------------- the bound is reached

  lemma {:induction false} ClearRun(j: nat, a: nat)
    requires a < j
    ensures Pow2(a) < Pow2(j) && Pow2(a + 1) <= Pow2(j)
    ensures InvertLowestOne(Pow2(j) - Pow2(a)) == Pow2(j) - Pow2(a + 1)
  {
    hide InvertLowestOne;
    if a == 0 {
      ClearOdd(Pow2(j - 1) - 1);
    } else {
      ClearRun(j - 1, a - 1);
      ClearDouble(Pow2(j - 1) - Pow2(a - 1));
    }
  }

  /** A run of set bits above the last one is even. */
  lemma {:induction false} RunEven(j: nat, a: nat)
    requires 1 <= a < j
    ensures Pow2(a) < Pow2(j) && !Odd(Pow2(j) - Pow2(a))
  {
    ClearRun(j - 1, a - 1);
    OddDouble(Pow2(j - 1) - Pow2(a - 1));
  }

  lemma {:induction false} PowEven(j: nat)
    requires j > 0
    ensures !Odd(Pow2(j))
  {
    OddDouble(Pow2(j - 1));
  }

  lemma {:induction false} Halves(j: nat)
    requires j > 0
    ensures Pow2(j) == 2 * Pow2(j - 1)
  {
  }

  lemma {:induction false} AtLeastEight(j: nat)
    requires j >= 3
    ensures Pow2(j) >= 8
  {
    if j > 3 {
      AtLeastEight(j - 1);
    }
  }

  lemma {:induction false} RunShape(k: nat, a: nat) returns (x: Shape)
    requires 3 <= a < k
    ensures Pow2(a) < Pow2(k) && x.High? && HasShape(Pow2(k) - Pow2(a), x)
  {
    ClearRun(k, a);
    ClearRun(k - 3, a - 3);
    assert Pow2(k) == 2 * Pow2(k - 1) && Pow2(k - 1) == 2 * Pow2(k - 2) && Pow2(k - 2) == 2 * Pow2(k - 3);
    assert Pow2(a) == 2 * Pow2(a - 1) && Pow2(a - 1) == 2 * Pow2(a - 2) && Pow2(a - 2) == 2 * Pow2(a - 3);
    x := High(Pow2(k - 3) - Pow2(a - 3));
  }

  /** How many steps there are from a run of `n` set bits above the last one, until it is all cleared. */
  function RunSteps(n: nat): nat {
    if n <= 1 then 2 else if n == 2 then 3 else 1 + RunSteps(n - 2)
  }

  lemma {:induction false} RunStepsIs(n: nat)
    requires n > 0
    ensures RunSteps(n) == (n + 4) / 2
  {
    if n > 2 {
      RunStepsIs(n - 2);
    }
  }

  lemma {:induction false} NextOdd(g: nat)
    requires !Odd(g)
    ensures Odd(g + 1)
  {
  }

  /** The last bit of a run. */
  lemma {:induction false} RunOfOne(j: nat)
    requires j >= 3
    ensures Pow2(j - 1) >= 4 && Steps(Pow2(j - 1) + 1, 2) == 2 + Steps(Pow2(j - 1) - 1, 2)
  {
    hide InvertLowestOne, LowestOne, Multiple, Steps, Jumps, GetSkipHeight, Pow2;
    AtLeastEight(j);
    Halves(j);
    Halves(j - 1);
    PowerIsMultiple(j - 1);
    PowEven(j - 1);
    hide Odd;
    var g := Pow2(j - 1);
    assert Odd(g + 1) by { NextOdd(g); }
    OddJumps(g + 1, 2);
    SteppedDown(g + 1, 2);
    TwoAbove(g, 2);
  }

  /** The last two bits of a run. */
  lemma {:induction false} RunOfTwo(j: nat)
    requires j >= 3
    ensures Pow2(j - 1) >= 4 && Pow2(j - 2) < Pow2(j)
    ensures Steps(Pow2(j) - Pow2(j - 2) + 1, 2) == 3 + Steps(Pow2(j - 1) - 1, 2)
  {
    hide InvertLowestOne, Steps, Jumps, GetSkipHeight, Pow2;
    AtLeastEight(j);
    Halves(j);
    Halves(j - 1);
    Halves(j - 2);
    ClearRun(j, j - 2);
    ClearRun(j, j - 1);
    RunEven(j, j - 2);
    hide Odd;
    var g := Pow2(j) - Pow2(j - 2);
    assert Odd(g + 1) by { NextOdd(g); }
    OddJumps(g + 1, 2);
    SteppedDown(g + 1, 2);
    TwoAbove(g, 2);
  }

  /** A longer run loses two bits in one step. */
  lemma {:induction false} RunStep(j: nat, a: nat)
    requires 1 <= a && a + 3 <= j
    ensures Pow2(a) < Pow2(j) && Pow2(a + 2) < Pow2(j) && Pow2(j) - Pow2(a + 2) >= 2
    ensures Steps(Pow2(j) - Pow2(a) + 1, 2) == 1 + Steps(Pow2(j) - Pow2(a + 2) + 1, 2)
  {
    hide InvertLowestOne, Steps, Jumps, GetSkipHeight, Pow2;
    Halves(j);
    Halves(a);
    Halves(a + 2);
    ClearRun(j, a);
    ClearRun(j, a + 1);
    ClearRun(j, a + 2);
    RunEven(j, a);
    hide Odd;
    var g := Pow2(j) - Pow2(a);
    assert Odd(g + 1) by { NextOdd(g); }
    OddJumps(g + 1, 2);
    Jumped(g + 1, 2);
  }

  /** From a run of set bits and the last one, two bits are cleared in each step. */
  lemma {:induction false} OddRun(j: nat, a: nat)
    requires 1 <= a < j && j >= 3
    ensures Pow2(a) < Pow2(j) && Pow2(j - 1) >= 4
    ensures Steps(Pow2(j) - Pow2(a) + 1, 2) == RunSteps(j - a) + Steps(Pow2(j - 1) - 1, 2)
    decreases j - a
  {
    hide Steps, Pow2;
    if j - a == 1 {
      RunOfOne(j);
      Halves(j);
    } else if j - a == 2 {
      RunOfTwo(j);
    } else {
      RunStep(j, a);
      OddRun(j, a + 2);
    }
  }

  /** From the last height of a block the walk to height 2 takes as many steps as the bound allows. */
  lemma {:induction false} OddReached(j: nat)
    requires j >= 2
    ensures Pow2(j) >= 4 && Steps(Pow2(j) - 1, 2) == Rest(j)
  {
    hide Steps, Pow2, RunSteps;
    if j == 2 {
      FourIsPow();
      OneStep(2);
    } else {
      OddReached(j - 1);
      OddRun(j, 1);
      RunStepsIs(j - 1);
      Halves(j);
      TwoIsPow();
    }
  }

  lemma TwoIsPow()
    ensures Pow2(1) == 2
  {
  }

  /** From a run of set bits one bit is cleared in each step. */
  lemma {:induction false} EvenRun(k: nat, a: nat)
    requires 3 <= a < k
    ensures Pow2(a) < Pow2(k) && Steps(Pow2(k) - Pow2(a), 2) == (k - a) + Rest(k - 1)
    decreases k - a
  {
    hide InvertLowestOne, Steps, Jumps, GetSkipHeight, Pow2, OddBound;
    AtLeastEight(k);
    AtLeastEight(a);
    Halves(k);
    Halves(a);
    ClearRun(k, a);
    RunEven(k, a);
    hide Odd;
    var h := Pow2(k) - Pow2(a);
    if a == k - 1 {
      OddReached(k - 1);
      Blocked(h, 2);
    } else {
      ClearRun(k, a + 1);
      AtLeastEight(a + 1);
      Halves(a + 2);
      var x := RunShape(k, a);
      HighJumps(h, 2, x);
      Jumped(h, 2);
      EvenRun(k, a + 1);
    }
  }

  /** For every k some walk from a height up to 2^k takes exactly as many steps as the bound allows. */
  lemma {:induction false} BoundReached(k: nat) returns (h: nat)
    requires k >= 4
    ensures 2 <= h <= Pow2(k) && Steps(h, 2) == StepBound(k)
  {
    hide InvertLowestOne, Steps, Pow2, OddBound;
    AtLeastEight(k - 1);
    Halves(k);
    if 1 + OddBound(k) >= OddBound(k - 1) + k - 3 {
      h := Pow2(k);
      PowEven(k);
      assert InvertLowestOne(h) == 0 by { PowerIsMultiple(k); }
      OddReached(k);
      Blocked(h, 2);
    } else {
      assert Pow2(3) == 8 by { EightIsPow(); }
      h := Pow2(k) - 8;
      EvenRun(k, 3);
    }
  }

  lemma EightIsPow()
    ensures Pow2(3) == 8
  {
    assert Pow2(2) == 4;
  }

  /** So no bound linear in the number of bits holds. */
  lemma {:induction false} BoundIsSquare(k: nat)
    requires k >= 3
    ensures 4 * StepBound(k) >= k * k + 5 * k - 4
  {
    hide OddBound;
    OddBoundBelow(k);
  }

  lemma {:induction false} OddBoundBelow(j: nat)
    requires j >= 3
    ensures 4 * OddBound(j) >= j * j + 5 * j - 8
  {
    if j > 3 {
      OddBoundBelow(j - 1);
      assert (j - 1) * (j - 1) == j * j - 2 * j + 1;
    }
  }
}
