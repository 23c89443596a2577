/** Numbers written with digits in some base, most significant digit first. */
module Positional {

  function Pow(b: nat, k: nat): nat {
    if k == 0 then 1 else b * Pow(b, k - 1)
  }

  predicate Digits(ds: seq<nat>, b: nat) {
    forall i :: 0 <= i < |ds| ==> ds[i] < b
  }

  function Value(ds: seq<nat>, b: nat): nat {
    if ds == [] then 0 else Value(ds[..|ds| - 1], b) * b + ds[|ds| - 1]
  }

  /** The digits of `n` without leading zeroes. */
  function ToDigits(n: nat, b: nat): seq<nat>
    requires b >= 2
  {
    if n == 0 then [] else DivFacts(n, b); ToDigits(n / b, b) + [n % b]
  }

  predicate NoLeadingZero(ds: seq<nat>) {
    ds == [] || ds[0] != 0
  }

  function Zeroes(k: nat): seq<nat> {
    seq(k, _ => 0)
  }

  lemma {:induction false} PowPositive(b: nat, k: nat)
    requires b >= 1
    ensures Pow(b, k) >= 1
  {
    if k > 0 {
      PowPositive(b, k - 1);
      assert b * Pow(b, k - 1) >= 1;
    }
  }

  lemma Regrouped(x: nat, y: nat, z: nat)
    ensures x * (y * z) == (x * y) * z
  {
  }

  lemma {:induction false} PowAdd(b: nat, j: nat, k: nat)
    ensures Pow(b, j + k) == Pow(b, j) * Pow(b, k)
    decreases j
  {
    if j > 0 {
      PowAdd(b, j - 1, k);
      Regrouped(b, Pow(b, j - 1), Pow(b, k));
    }
  }

  lemma {:induction false} PowMono(b: nat, j: nat, k: nat)
    requires b >= 1 && j <= k
    ensures Pow(b, j) <= Pow(b, k)
    decreases k
  {
    if j < k {
      PowMono(b, j, k - 1);
      PowPositive(b, k - 1);
      assert b * Pow(b, k - 1) >= Pow(b, k - 1);
    }
  }

  lemma MulLe(a: nat, b: nat, c: nat, d: nat)
    requires a <= b && c <= d
    ensures a * c <= b * d
  {
    assert a * c <= b * c;
    assert b * c <= b * d;
  }

  lemma ValueSnoc(ds: seq<nat>, d: nat, b: nat)
    ensures Value(ds + [d], b) == Value(ds, b) * b + d
  {
    assert (ds + [d])[..|ds|] == ds;
  }

  /** A digit in front counts its power of the base. */
  lemma {:induction false} ValueCons(d: nat, ds: seq<nat>, b: nat)
    ensures Value([d] + ds, b) == d * Pow(b, |ds|) + Value(ds, b)
    decreases |ds|
  {
    if ds == [] {
      assert [d] + ds == [d];
      assert Value([d][..0], b) == 0;
    } else {
      var init, last := ds[..|ds| - 1], ds[|ds| - 1];
      assert ([d] + ds)[..|ds|] == [d] + init;
      ValueCons(d, init, b);
      Regroup(d, Pow(b, |init|), Value(init, b), b, last);
    }
  }

  lemma Regroup(d: nat, p: nat, v: nat, b: nat, last: nat)
    ensures (d * p + v) * b + last == d * (b * p) + (v * b + last)
  {
    assert (d * p) * b == d * (b * p);
    assert (d * p + v) * b == (d * p) * b + v * b;
  }

  lemma {:induction false} ValueBound(ds: seq<nat>, b: nat)
    requires Digits(ds, b)
    ensures Value(ds, b) < Pow(b, |ds|)
    decreases |ds|
  {
    if ds != [] {
      var init := ds[..|ds| - 1];
      ValueBound(init, b);
      BoundStep(Value(init, b), Pow(b, |init|), b, ds[|ds| - 1]);
    }
  }

  lemma BoundStep(v: nat, p: nat, b: nat, last: nat)
    requires v < p && last < b
    ensures v * b + last < b * p
  {
    MulGap(v, p, b);
    assert p * b == b * p;
  }

  lemma {:induction false} ValueZeroes(k: nat, ds: seq<nat>, b: nat)
    ensures Value(Zeroes(k) + ds, b) == Value(ds, b)
    decreases k
  {
    if k == 0 {
      assert Zeroes(0) + ds == ds;
    } else {
      assert Zeroes(k) + ds == [0] + (Zeroes(k - 1) + ds);
      ValueCons(0, Zeroes(k - 1) + ds, b);
      ValueZeroes(k - 1, ds, b);
    }
  }

  lemma {:induction false} ToDigitsValue(n: nat, b: nat)
    requires b >= 2
    ensures Value(ToDigits(n, b), b) == n && Digits(ToDigits(n, b), b) && NoLeadingZero(ToDigits(n, b))
    decreases n, 1
  {
    if n > 0 {
      DivFacts(n, b);
      ToDigitsSnoc(n / b, n % b, n, b);
    }
  }

  lemma {:induction false} ToDigitsSnoc(q: nat, r: nat, n: nat, b: nat)
    requires b >= 2 && n > 0 && q < n && r < b && n == q * b + r && ToDigits(n, b) == ToDigits(q, b) + [r]
    ensures Value(ToDigits(n, b), b) == n && Digits(ToDigits(n, b), b) && NoLeadingZero(ToDigits(n, b))
    decreases n, 0
  {
    ToDigitsValue(q, b);
    var ds := ToDigits(q, b);
    assert (ds + [r])[..|ds|] == ds;
    assert Value(ds + [r], b) == Value(ds, b) * b + r;
    if q == 0 {
      assert ds == [] && q * b == 0;
    }
  }

  lemma DivFacts(n: nat, b: nat)
    requires b >= 2 && n > 0
    ensures n == n / b * b + n % b && n % b < b && n / b < n
  {
    var q := n / b;
    assert n == q * b + n % b;
    assert q * b >= q * 2 by { MulLe(q, q, 2, b); }
  }

  /** A numeral without leading zero is the numeral of its value. */
  lemma {:induction false} ValueToDigits(ds: seq<nat>, b: nat)
    requires b >= 2 && Digits(ds, b) && NoLeadingZero(ds)
    ensures ToDigits(Value(ds, b), b) == ds
    ensures ds != [] ==> Value(ds, b) > 0
    decreases |ds|
  {
    if ds != [] {
      var init, last := ds[..|ds| - 1], ds[|ds| - 1];
      ValueToDigits(init, b);
      DivMod(Value(init, b), last, b);
      if init == [] {
        assert Value(init, b) == 0 && last == ds[0];
      } else {
        assert Value(init, b) * b > 0;
      }
      assert ds == init + [last];
    }
  }

  lemma DivMod(q: nat, r: nat, b: nat)
    requires r < b
    ensures (q * b + r) / b == q && (q * b + r) % b == r
  {
    var n := q * b + r;
    assert n == n / b * b + n % b;
    if n / b < q {
      MulGap(n / b, q, b);
    } else if n / b > q {
      MulGap(q, n / b, b);
    }
  }

  lemma MulGap(x: nat, y: nat, b: nat)
    requires x < y
    ensures x * b + b <= y * b
  {
    MulLe(x + 1, y, b, b);
    assert (x + 1) * b == x * b + b;
  }

  /** Dropping the leading zeroes of a numeral gives the numeral of its value. */
  lemma DropZeroes(ds: seq<nat>, k: nat, b: nat)
    requires b >= 2 && Digits(ds, b) && k <= |ds|
    requires (forall i :: 0 <= i < k ==> ds[i] == 0) && NoLeadingZero(ds[k..])
    ensures ds[k..] == ToDigits(Value(ds, b), b)
  {
    assert ds == Zeroes(k) + ds[k..];
    ValueZeroes(k, ds[k..], b);
    ValueToDigits(ds[k..], b);
  }

  function LeadingZeroes(ds: seq<nat>): (k: nat)
    ensures k <= |ds| && (forall i :: 0 <= i < k ==> ds[i] == 0) && NoLeadingZero(ds[k..])
  {
    if ds == [] || ds[0] != 0 then 0 else 1 + LeadingZeroes(ds[1..])
  }

  lemma {:induction false} LeadingZeroesUnique(ds: seq<nat>, k: nat)
    requires k <= |ds| && (forall i :: 0 <= i < k ==> ds[i] == 0) && NoLeadingZero(ds[k..])
    ensures LeadingZeroes(ds) == k
    decreases |ds|
  {
    if k > 0 {
      assert ds[1..][k - 1..] == ds[k..];
      LeadingZeroesUnique(ds[1..], k - 1);
    } else if ds != [] {
      assert ds[0..][0] == ds[0];
    }
  }

  /** Rewrite a numeral in another base, keeping one zero for every leading zero. */
  function Convert(ds: seq<nat>, from: nat, to: nat): seq<nat>
    requires to >= 2
  {
    var k := LeadingZeroes(ds);
    Zeroes(k) + ToDigits(Value(ds[k..], from), to)
  }

  /** Rewriting forth and back is the identity, leading zeroes and all. */
  lemma ConvertBack(ds: seq<nat>, from: nat, to: nat)
    requires from >= 2 && to >= 2 && Digits(ds, from)
    ensures Digits(Convert(ds, from, to), to) && Convert(Convert(ds, from, to), to, from) == ds
  {
    hide LeadingZeroes;
    hide Value;
    hide ToDigits;
    var k := LeadingZeroes(ds);
    var v := Value(ds[k..], from);
    ToDigitsValue(v, to);
    var es := Zeroes(k) + ToDigits(v, to);
    assert es[k..] == ToDigits(v, to);
    LeadingZeroesUnique(es, k);
    ValueToDigits(ds[k..], from);
    assert Zeroes(k) + ds[k..] == ds;
  }
}
