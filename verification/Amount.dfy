/** Compact amounts (`CTxOutCompressor::CompressAmount`, `DecompressAmount`, src/compressor.cpp). */
module Amount {
  import opened Common

  /** `MAX_MONEY` (src/amount.h), as its 64-bit product comes out. */
  const MAX_MONEY: nat := 7766279631452241920

  function Pow10(e: nat): (p: nat)
    ensures p >= 1
  {
    if e == 0 then 1 else 10 * Pow10(e - 1)
  }

  // ---------------------------------------------------------------- on the natural numbers

  /** Divide out up to `room` factors of ten; the second component counts them. */
  function Strip(n: nat, room: nat): (r: (nat, nat))
    requires n > 0
    ensures r.0 > 0 && r.1 <= room
    decreases room
  {
    if n % 10 == 0 && room > 0 then
      var (m, e) := Strip(n / 10, room - 1);
      (m, e + 1)
    else (n, 0)
  }

  function Code(m: nat, e: nat): nat
    requires m > 0 && (e >= 9 || m % 10 != 0)
  {
    if e < 9 then 1 + (m / 10 * 9 + m % 10 - 1) * 10 + e else 1 + (m - 1) * 10 + 9
  }

  function Compress(n: nat): nat {
    if n == 0 then 0
    else
      StripExact(n, 9);
      var (m, e) := Strip(n, 9);
      Code(m, e)
  }

  /** The stripped amount and exponent that a non-zero code stands for. */
  function Decode(x: nat): (r: (nat, nat))
    requires x > 0
    ensures r.0 > 0 && r.1 <= 9 && (r.1 == 9 || r.0 % 10 != 0)
  {
    var e := (x - 1) % 10;
    var y := (x - 1) / 10;
    if e < 9 then (y / 9 * 10 + y % 9 + 1, e) else (y + 1, e)
  }

  function Decompress(x: nat): nat {
    if x == 0 then 0 else Decode(x).0 * Pow10(Decode(x).1)
  }

  lemma {:induction false} StripExact(n: nat, room: nat)
    requires n > 0
    ensures var (m, e) := Strip(n, room); n == m * Pow10(e) && (e == room || m % 10 != 0)
    decreases room
  {
    if n % 10 == 0 && room > 0 {
      StripExact(n / 10, room - 1);
      var (m, e) := Strip(n / 10, room - 1);
      assert n == 10 * (n / 10) == 10 * (m * Pow10(e)) == m * (10 * Pow10(e));
    }
  }

  lemma {:induction false} StripOfProduct(m: nat, e: nat, room: nat)
    requires m > 0 && e <= room && (e == room || m % 10 != 0)
    ensures m * Pow10(e) > 0 && Strip(m * Pow10(e), room) == (m, e)
    decreases e
  {
    if e == 0 {
      assert m * Pow10(0) == m;
    } else {
      var p := m * Pow10(e - 1);
      assert m * Pow10(e) == 10 * p by { TimesTen(m, e - 1); }
      StripOfProduct(m, e - 1, room - 1);
      hide Pow10;
      assert (10 * p) / 10 == p && (10 * p) % 10 == 0;
      assert Strip(10 * p, room) == (Strip(p, room - 1).0, Strip(p, room - 1).1 + 1);
    }
  }

  lemma DivMod9(a: nat, b: nat)
    requires b < 9
    ensures (a * 9 + b) / 9 == a && (a * 9 + b) % 9 == b
  {
  }

  lemma DivMod10(a: nat, b: nat)
    requires b < 10
    ensures (a * 10 + b) / 10 == a && (a * 10 + b) % 10 == b
  {
  }

  lemma CodeDecode(x: nat)
    requires x > 0
    ensures Code(Decode(x).0, Decode(x).1) == x
  {
    var e, y := (x - 1) % 10, (x - 1) / 10;
    if e < 9 {
      DivMod10(y / 9, y % 9 + 1);
      var m := y / 9 * 10 + (y % 9 + 1);
      assert Code(m, e) == 1 + (y / 9 * 9 + y % 9) * 10 + e;
    }
  }

  lemma DecodeCode(m: nat, e: nat)
    requires m > 0 && e <= 9 && (e == 9 || m % 10 != 0)
    ensures Code(m, e) > 0 && Decode(Code(m, e)) == (m, e)
  {
    if e < 9 {
      var y := m / 10 * 9 + (m % 10 - 1);
      DivMod9(m / 10, m % 10 - 1);
      DivMod10(y, e);
      assert Code(m, e) - 1 == y * 10 + e;
    } else {
      DivMod10(m - 1, 9);
    }
  }

  /** Every amount can be recovered from its code. */
  lemma DecompressCompress(n: nat)
    ensures Decompress(Compress(n)) == n
  {
    if n > 0 {
      StripExact(n, 9);
      var (m, e) := Strip(n, 9);
      DecodeCode(m, e);
    }
  }

  /** Every number is the code of exactly one amount. */
  lemma CompressDecompress(x: nat)
    ensures Compress(Decompress(x)) == x
  {
    if x > 0 {
      var (m, e) := Decode(x);
      StripOfProduct(m, e, 9);
      CodeDecode(x);
    }
  }

  // ---------------------------------------------------------------- the code, in 64-bit words

  /** The value an unsigned 64-bit variable holds after being assigned `x`. */
  function Wrap(x: nat): nat {
    x % WORD
  }

  lemma WrapSum(x: nat, y: nat)
    ensures Wrap(Wrap(x) + y) == Wrap(x + y)
  {
    var q := x / WORD;
    ModShift(Wrap(x) + y, q);
    assert x + y == (Wrap(x) + y) + q * WORD;
  }

  lemma WrapTimes(x: nat, y: nat)
    ensures Wrap(Wrap(x) * y) == Wrap(x * y)
  {
    hide Wrap;
    var q, w := x / WORD, x % WORD;
    assert x == w + q * WORD && Wrap(x) == w by { WrapDef(x); }
    Distribute(w, q, y);
    ModShift(w * y, q * y);
    WrapDef(w * y);
    WrapDef(x * y);
  }

  lemma WrapDef(x: nat)
    ensures Wrap(x) == x % WORD
  {
  }

  lemma Distribute(w: nat, q: nat, y: nat)
    ensures (w + q * WORD) * y == w * y + (q * y) * WORD
  {
  }

  lemma ModShift(x: nat, q: nat)
    ensures (x + q * WORD) % WORD == x % WORD
    decreases q
  {
    if q > 0 {
      assert x + q * WORD == (x + (q - 1) * WORD) + WORD;
      ModShift(x, q - 1);
    }
  }

  lemma WrapCode(n: nat, d: nat, e: nat)
    requires d >= 1
    ensures Wrap(1 + Wrap(Wrap(Wrap(n * 9) + (d - 1)) * 10) + e) == Wrap(1 + (n * 9 + d - 1) * 10 + e)
  {
    hide Wrap;
    WrapSum(n * 9, d - 1);
    WrapTimes(n * 9 + (d - 1), 10);
    WrapSum((n * 9 + (d - 1)) * 10, 1 + e);
  }

  /** The loop of `CompressAmount`: divide by ten while that is exact, at most nine times. */
  method StripZeroes(amount: nat) returns (n: nat, e: nat)
    requires amount > 0
    ensures n > 0 && (n, e) == Strip(amount, 9) && (e == 9 || n % 10 != 0)
  {
    hide Strip;
    n, e := amount, 0;
    while n % 10 == 0 && e < 9
      invariant n > 0 && e <= 9
      invariant Strip(amount, 9) == (Strip(n, 9 - e).0, Strip(n, 9 - e).1 + e)
      decreases n
    {
      StripStep(n, 9 - e);
      n := n / 10;
      e := e + 1;
    }
    StripEnd(n, 9 - e);
  }

  lemma StripStep(n: nat, room: nat)
    requires n > 0 && n % 10 == 0 && room > 0
    ensures n / 10 > 0 && Strip(n, room) == (Strip(n / 10, room - 1).0, Strip(n / 10, room - 1).1 + 1)
  {
  }

  lemma StripEnd(n: nat, room: nat)
    requires n > 0 && (n % 10 != 0 || room == 0)
    ensures Strip(n, room) == (n, 0)
  {
  }

  /** `CompressAmount`, every operation in a 64-bit word: the true code modulo 2^64. */
  method CompressAmount(amount: nat) returns (x: nat)
    requires amount < WORD
    ensures x == Wrap(Compress(amount))
  {
    hide Wrap;
    hide Strip;
    if amount == 0 {
      WrapDef(0);
      return 0;
    }
    var n, e := StripZeroes(amount);
    if e < 9 {
      var d := n % 10;
      assert 1 <= d <= 9;
      n := n / 10;
      WrapCode(n, d, e);
      x := Wrap(1 + Wrap(Wrap(Wrap(n * 9) + (d - 1)) * 10) + e);
    } else {
      WrapSum((n - 1) * 10, 10);
      x := Wrap(1 + Wrap((n - 1) * 10) + 9);
    }
  }

  /** `DecompressAmount`, every operation in a 64-bit word: the true amount modulo 2^64. */
  method DecompressAmount(code: nat) returns (n: nat)
    requires code < WORD
    ensures n == Wrap(Decompress(code))
  {
    hide Wrap;
    if code == 0 {
      WrapDef(0);
      return 0;
    }
    var x := code - 1;
    var e := x % 10;
    x := x / 10;
    if e < 9 {
      var d := x % 9 + 1;
      x := x / 9;
      n := Wrap(x * 10 + d);
    } else {
      n := Wrap(x + 1);
    }
    assert (n, e) == (Wrap(Decode(code).0), Decode(code).1);
    n := ScaleUp(n, e, Decode(code).0);
  }

  /** The loop of `DecompressAmount`: multiply by ten `e` times. */
  method ScaleUp(start: nat, exponent: nat, ghost m: nat) returns (n: nat)
    requires start == Wrap(m)
    ensures n == Wrap(m * Pow10(exponent))
  {
    hide Wrap;
    n := start;
    var e := exponent;
    assert m * Pow10(0) == m;
    while e > 0
      invariant 0 <= e <= exponent && n == Wrap(m * Pow10(exponent - e))
      decreases e
    {
      WrapTimes(m * Pow10(exponent - e), 10);
      TimesTen(m, exponent - e);
      n := Wrap(n * 10);
      e := e - 1;
    }
  }

  lemma TimesTen(m: nat, k: nat)
    ensures m * Pow10(k) * 10 == m * Pow10(k + 1)
  {
  }

  /** The amounts whose code fits in a word, in terms a caller can check. */
  predicate Fits(n: nat) {
    n % 10 == 0 || 9 * n + n % 10 - 9 < WORD
  }

  /** The largest product on the way from a stripped amount to its code. */
  function Product(m: nat, e: nat): int {
    if e < 9 then (m / 10 * 9 + m % 10 - 1) * 10 else (m - 1) * 10
  }

  lemma CodeFits(n: nat)
    requires n < WORD
    ensures Fits(n) <==> Compress(n) < WORD
  {
    hide Code;
    hide Strip;
    if n > 0 {
      StripExact(n, 9);
      if n % 10 == 0 {
        StripShrinks(n);
      } else {
        StripEnd(n, 9);
        CodeBound(n, 0);
      }
    }
  }

  /** No 64-bit operation of the compression wraps around exactly for these amounts. */
  lemma FitsExactly(n: nat)
    requires n < WORD
    ensures Fits(n) <==> Compress(n) < WORD
    ensures Fits(n) <==> Wrap(Compress(n)) == Compress(n)
    ensures n > 0 && Fits(n) ==> (var (m, e) := Strip(n, 9); 0 <= Product(m, e) < WORD)
  {
    hide Fits, Compress, Strip, Product;
    CodeFits(n);
    if n > 0 {
      ProductBelow(n);
    }
  }

  lemma ProductBelow(n: nat)
    requires n > 0
    ensures var (m, e) := Strip(n, 9); 0 <= Product(m, e) < Compress(n)
  {
    hide Strip;
    StripExact(n, 9);
  }

  lemma StripShrinks(n: nat)
    requires n > 0 && n % 10 == 0
    ensures var (m, e) := Strip(n, 9);
            (e == 9 || m % 10 != 0) && Code(m, e) <= 9 * (n / 10) + 9
  {
    hide Code;
    hide Strip;
    var (m, e) := Strip(n, 9);
    StripExact(n, 9);
    assert e > 0 by { StripOnce(n); }
    CodeBound(m, e);
    if e == 9 {
      assert Pow10(9) == 1_000_000_000;
    } else {
      assert n / 10 == m * Pow10(e - 1) by { TimesTen(m, e - 1); }
      Shrinks(m, Pow10(e - 1), n / 10);
    }
  }

  lemma StripOnce(n: nat)
    requires n > 0 && n % 10 == 0
    ensures Strip(n, 9).1 > 0
  {
  }

  lemma CodeBound(m: nat, e: nat)
    requires m > 0 && e <= 9 && (e == 9 || m % 10 != 0)
    ensures e < 9 ==> Code(m, e) == 9 * m + m % 10 - 9 + e
    ensures e == 9 ==> Code(m, e) == 10 * m
  {
    assert m == m / 10 * 10 + m % 10;
  }

  lemma Shrinks(m: nat, p: nat, n: nat)
    requires p >= 1 && n == m * p
    ensures m <= n
  {
  }

  /** Compressing and decompressing a fitting amount in 64-bit words gives the amount back. */
  method RoundTrip(amount: nat) returns (back: nat)
    requires amount < WORD && Fits(amount)
    ensures back == amount
  {
    hide Compress;
    hide Decompress;
    FitsExactly(amount);
    DecompressCompress(amount);
    var x := CompressAmount(amount);
    back := DecompressAmount(x);
  }

  // ---------------------------------------------------------------- wrapped codes never come back right

  /** A linear congruence modulo 2^64 with an odd coefficient `a`, whose inverse is given, has one solution. */
  lemma Solve(n: nat, a: int, inverse: int, r: int, b: int, q: int)
    requires n < WORD && n * a == b + q * WORD && a * inverse == 1 + r * WORD
    ensures n == inverse * b % WORD
  {
    var z := inverse * q - n * r;
    calc {
      inverse * b;
      inverse * (n * a - q * WORD);
      { assert inverse * (n * a - q * WORD) == n * (a * inverse) - inverse * q * WORD; }
      n * (1 + r * WORD) - inverse * q * WORD;
      { assert n * (1 + r * WORD) == n + n * r * WORD; }
      n - z * WORD;
    }
    ModUnique(inverse * b, n, -z);
  }

  lemma ModUnique(x: int, n: nat, z: int)
    requires n < WORD && x == n + z * WORD
    ensures x % WORD == n
  {
  }

  /** The inverse of 9 * (10^e - 1) modulo 2^64. */
  function Inverse(e: nat): int {
    if e == 2 then 13705661702352102323 else if e == 4 then 15842828238033401399
    else if e == 6 then 12483635422780629383 else 16430456183658535111
  }

  /** An amount that comes back although its code lost `k` times 2^64 is fixed by `k` and the last digits. */
  lemma Coincidence(n: nat, k: int, m: nat, e: nat, t: int, j: int)
    requires n < WORD && e in {2, 4, 6, 8}
    requires n + j * WORD == m * Pow10(e) && 9 * n == 9 * m + t + k * WORD
    ensures n == Inverse(e) * (t * Pow10(e)) % WORD
  {
    hide Pow10;
    PowersOfTen();
    if e == 2 {
      Solve(n, 891, Inverse(2), 662, t * 100, 9 * j + k * 100);
    } else if e == 4 {
      Solve(n, 89991, Inverse(4), 77288, t * 10000, 9 * j + k * 10000);
    } else if e == 6 {
      Solve(n, 8999991, Inverse(6), 6090647, t * 1000000, 9 * j + k * 1000000);
    } else {
      Solve(n, 899999991, Inverse(8), 801627125, t * 100000000, 9 * j + k * 100000000);
    }
  }

  lemma PowersOfTen()
    ensures Pow10(2) == 100 && Pow10(4) == 10000 && Pow10(6) == 1000000 && Pow10(8) == 100000000
  {
    assert Pow10(6) == 100 * Pow10(4);
    assert Pow10(8) == 100 * Pow10(6);
  }

  /** The smaller of the two numbers in reach of the exponent that are 2 * k modulo nine. */
  function Low(k: nat): int {
    if k == 3 then -3 else if k == 4 then -1 else if k == 8 then -2 else if k >= 6 then 2 * k - 9 else 2 * k
  }

  lemma TwoResidues(k: nat, e: nat, t: int)
    requires 1 <= k <= 8 && e == 4 * k % 10 && e != 0 && e - 8 <= t <= e + 8 && (t - 2 * k) % 9 == 0
    ensures e in {2, 4, 6, 8} && (t == Low(k) || t == Low(k) + 9)
  {
    var z := (t - 2 * k) / 9;
    assert t == 2 * k + 9 * z;
  }

  /** The code of `n` loses something other than `k` times 2^64, or nothing at all. */
  predicate LosesOther(n: nat, k: nat) {
    n % 10 == 0 || (9 * n + n % 10 - 9) / WORD != k
  }

  lemma Candidate(n: nat, k: nat, z: int)
    requires n < WORD
    ensures LosesOther(n, k) <==> n % 10 == 0 || 9 * n + n % 10 - 9 < k * WORD || (k + 1) * WORD <= 9 * n + n % 10 - 9
    ensures (n + z * WORD) % WORD == n
  {
    ModUnique(n + z * WORD, n, z);
    var c, q := 9 * n + n % 10 - 9, (9 * n + n % 10 - 9) / WORD;
    assert q * WORD <= c < (q + 1) * WORD;
  }

  lemma LowerCandidate(k: nat, e: nat)
    requires 1 <= k <= 8 && e == 4 * k % 10 && e != 0
    ensures LosesOther(Inverse(e) * ((Low(k)) * Pow10(e)) % WORD, k)
  {
    hide Pow10, LosesOther;
    PowersOfTen();
    if k == 1 {
      Candidate(15288550632769423584, 1, 17176);
    } else if k == 2 {
      Candidate(14480868974329830400, 2, 356278725);
    } else if k == 3 {
      Candidate(1925417731599313468, 3, -223);
    } else if k == 4 {
      Candidate(14161661572577611840, 4, -676740);
    } else if k == 6 {
      Candidate(4486081875444583760, 6, 25765);
    } else if k == 7 {
      Candidate(4266028162630124288, 7, 445348407);
    } else {
      Candidate(7432526512302726184, 8, -149);
    }
  }

  lemma UpperCandidate(k: nat, e: nat)
    requires 1 <= k <= 8 && e == 4 * k % 10 && e != 0
    ensures LosesOther(Inverse(e) * ((Low(k) + 9) * Pow10(e)) % WORD, k)
  {
    hide Pow10, LosesOther;
    PowersOfTen();
    if k == 1 {
      Candidate(10300052185393623248, 1, 94472);
    } else if k == 2 {
      Candidate(14781022037580233472, 2, 1157905858);
    } else if k == 3 {
      Candidate(14595908610510924680, 3, 445);
    } else if k == 4 {
      Candidate(15833915935345966592, 4, 5413913);
    } else if k == 6 {
      Candidate(17944327501778335040, 6, 103060);
    } else if k == 7 {
      Candidate(4566181225880527360, 7, 1246975540);
    } else {
      Candidate(1656273317504785780, 8, 520);
    }
  }

  /** No candidate loses the amount that leads to it. */
  lemma NoCandidate(k: nat, e: nat, t: int)
    requires 1 <= k <= 8 && e == 4 * k % 10 && e != 0 && e - 8 <= t <= e + 8 && (t - 2 * k) % 9 == 0
    ensures e in {2, 4, 6, 8} && LosesOther(Inverse(e) * (t * Pow10(e)) % WORD, k)
  {
    hide LosesOther, Inverse, Pow10;
    TwoResidues(k, e, t);
    LowerCandidate(k, e);
    UpperCandidate(k, e);
  }

  lemma LastDigit(n: nat, x: nat, k: nat)
    requires x + k * WORD == 9 * n + n % 10 - 9 && x > 0
    ensures (x - 1) % 10 == 4 * k % 10
  {
    var d, h := n % 10, n / 10;
    var z := 9 * h + d - 1 - 1844674407370955161 * k - k;
    assert x - 1 == 10 * z + 4 * k;
    Mod10(z, 4 * k);
  }

  lemma Mod10(z: int, y: int)
    ensures (10 * z + y) % 10 == y % 10
  {
    assert 10 * z + y == 10 * (z + y / 10) + y % 10;
  }

  /** The code of an amount that does not fit, with `k` times 2^64 lost, has exponent 4 * k modulo ten. */
  lemma LostCode(n: nat, x: nat, k: nat)
    requires n < WORD && !Fits(n) && Compress(n) == x + k * WORD && 0 < x < WORD
    ensures 1 <= k <= 8 && !LosesOther(n, k) && x + k * WORD == 9 * n + n % 10 - 9
    ensures Decode(x).1 == 4 * k % 10
  {
    hide Strip, Code;
    assert Compress(n) == 9 * n + n % 10 - 9 by {
      StripEnd(n, 9);
      CodeBound(n, 0);
    }
    Candidate(n, k, 0);
    LastDigit(n, x, k);
  }

  /** With the exponent zero the wrapped code would have to be the code itself. */
  lemma NotZero(n: nat, m: nat, k: nat)
    requires n < WORD && 1 <= k && 9 * n + n % 10 == 9 * m + m % 10 + k * WORD && 9 * m + m % 10 - 9 < WORD
    ensures m % WORD != n
  {
    assert m < WORD;
  }

  /** Once the code of an amount wraps around, a different amount comes back. */
  lemma WrappedCodeFails(n: nat)
    requires n < WORD && !Fits(n)
    ensures Wrap(Decompress(Wrap(Compress(n)))) != n
  {
    hide Compress, Pow10, LosesOther, Inverse, Code, Decode;
    var x, k := Compress(n) % WORD, Compress(n) / WORD;
    if x > 0 {
      LostCode(n, x, k);
      var (m, e) := Decode(x);
      CodeDecode(x);
      CodeBound(m, e);
      if e == 0 {
        assert m * Pow10(0) == m by { assert Pow10(0) == 1 by { PowZero(); } }
        NotZero(n, m, k);
      } else {
        Different(n, k, m, e);
      }
    }
  }

  lemma PowZero()
    ensures Pow10(0) == 1
  {
  }

  lemma Different(n: nat, k: nat, m: nat, e: nat)
    requires n < WORD && 1 <= k <= 8 && !LosesOther(n, k) && e == 4 * k % 10 && e != 0 && m % 10 != 0
    requires 9 * n + n % 10 == 9 * m + m % 10 + e + k * WORD
    ensures m * Pow10(e) % WORD != n
  {
    hide Pow10, Inverse;
    var t := e + m % 10 - n % 10;
    Residue(n, m, t, k);
    NoCandidate(k, e, t);
    if m * Pow10(e) % WORD == n {
      Coincidence(n, k, m, e, t, m * Pow10(e) / WORD);
      assert false;
    }
  }

  lemma Residue(n: nat, m: nat, t: int, k: nat)
    requires 9 * n == 9 * m + t + k * WORD
    ensures (t - 2 * k) % 9 == 0
  {
    assert t - 2 * k == 9 * (n - m - 2049638230412172401 * k - k);
  }

  /** An amount survives 64-bit compression exactly when its code fits in a word. */
  lemma RoundTripExactly(n: nat)
    requires n < WORD
    ensures Wrap(Decompress(Wrap(Compress(n)))) == n <==> Fits(n)
  {
    hide Compress, Decompress;
    if Fits(n) {
      FitsExactly(n);
      DecompressCompress(n);
    } else {
      WrappedCodeFails(n);
    }
  }

  lemma SmallAmountsFit(n: nat)
    requires n <= 2_000_000_000_000_000_000
    ensures n < WORD && Fits(n)
  {
  }

  /** Within the money range the 64-bit code need not belong to the amount: here it belongs to 10000. */
  lemma LargeAmountsFail()
    ensures var n := 2049638230412172403;
            n <= MAX_MONEY && !Fits(n) && Wrap(Decompress(Wrap(Compress(n)))) == 10000 != n
  {
    var n := 2049638230412172403;
    assert Strip(n, 9) == (n, 0);
    assert Compress(n) == 18446744073709551621;
    assert Wrap(Compress(n)) == 5;
    assert Decode(5) == (1, 4);
    assert Pow10(4) == 10000;
  }
}
