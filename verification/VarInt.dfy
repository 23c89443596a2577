/** Variable-length integers (`WriteVarInt`, `ReadVarInt`, `GetSizeOfVarInt`, src/serialize.h). */
module VarInt {

  import opened Common
  import P = Positional

  /** Base-128 digits, most significant first; all but the last byte of a number have bit 128 set. */
  function Encode(n: nat, last: bool): (r: seq<Byte>)
    ensures |r| > 0
    decreases n
  {
    (if n < 128 then [] else Encode(n / 128 - 1, false)) + [n % 128 + if last then 0 else 128]
  }

  function Encoding(n: nat): (r: seq<Byte>)
    ensures |r| > 0
  {
    Encode(n, true)
  }

  /** The number read from a stream on top of the digits `acc` read before, and what is left of the stream. */
  function Decode(acc: nat, s: seq<Byte>): Option<(nat, seq<Byte>)>
    decreases |s|
  {
    if s == [] then None
    else
      var n := acc * 128 + s[0] % 128;
      if s[0] >= 128 then Decode(n + 1, s[1..]) else Some((n, s[1..]))
  }

  lemma {:induction false} DecodeDigits(n: nat, rest: seq<Byte>)
    ensures Decode(0, Encode(n, false) + rest) == Decode(n + 1, rest)
    decreases n
  {
    var d: Byte := n % 128 + 128;
    if n < 128 {
      assert Encode(n, false) + rest == [d] + rest;
      assert ([d] + rest)[1..] == rest;
    } else {
      var front := Encode(n / 128 - 1, false);
      assert Encode(n, false) + rest == front + ([d] + rest);
      DecodeDigits(n / 128 - 1, [d] + rest);
      assert ([d] + rest)[1..] == rest;
      assert n / 128 * 128 + n % 128 == n;
    }
  }

  /** A number written to a stream is read back, and nothing after it is touched. */
  lemma DecodeEncode(n: nat, rest: seq<Byte>)
    ensures Decode(0, Encoding(n) + rest) == Some((n, rest))
  {
    var d: Byte := n % 128;
    if n < 128 {
      assert Encoding(n) + rest == [d] + rest;
    } else {
      var front := Encode(n / 128 - 1, false);
      assert Encoding(n) + rest == front + ([d] + rest);
      DecodeDigits(n / 128 - 1, [d] + rest);
    }
    assert ([d] + rest)[1..] == rest;
  }

  lemma EncodeSplit(acc: nat, d: nat, last: bool)
    requires d < 128
    ensures Encode(acc * 128 + d, last) == (if acc == 0 then [] else Encode(acc - 1, false)) + [d + if last then 0 else 128]
  {
    var n := acc * 128 + d;
    assert n / 128 == acc && n % 128 == d;
  }

  /** "No redundancy": what is read is the encoding of the number, so every number has exactly one. */
  lemma {:induction false} EncodeDecode(acc: nat, s: seq<Byte>)
    requires Decode(acc, s).Some?
    ensures var (n, rest) := Decode(acc, s).value;
            if acc == 0 then s == Encoding(n) + rest
            else Encode(acc - 1, false) + s == Encoding(n) + rest
    decreases |s|
  {
    hide Encode;
    var n := acc * 128 + s[0] % 128;
    assert s == [s[0]] + s[1..];
    var front := if acc == 0 then [] else Encode(acc - 1, false);
    assert front + s == front + [s[0]] + s[1..];
    EncodeSplit(acc, s[0] % 128, s[0] < 128);
    if s[0] >= 128 {
      EncodeDecode(n + 1, s[1..]);
    }
    assert acc == 0 ==> front + s == s;
  }

  /** What is read into an unsigned type of `size` values: the number, cut off. */
  function DecodeIn(size: nat, s: seq<Byte>): Option<(nat, seq<Byte>)>
    requires size > 0
  {
    match Decode(0, s)
    case None => None
    case Some((n, rest)) => Some((n % size, rest))
  }

  /** A number is read back from what was written exactly if it fits the type. */
  lemma DecodeInEncode(size: nat, n: nat, rest: seq<Byte>)
    requires size > 0
    ensures DecodeIn(size, Encoding(n) + rest) == Some((n % size, rest))
    ensures n % size == n <==> n < size
  {
    hide Decode, Encode;
    DecodeEncode(n, rest);
    CutSmall(n, size);
  }

  lemma CutSmall(n: nat, size: nat)
    requires size > 0
    ensures n % size == n <==> n < size
  {
    if n < size {
      P.DivMod(0, n, size);
    }
  }

  /** Cutting off in every step is cutting off at the end. */
  lemma CutStep(m: nat, d: nat, size: nat)
    requires size > 0
    ensures (m % size * 128 + d) % size == (m * 128 + d) % size
  {
    var q, y := m / size, m % size * 128 + d;
    assert m == q * size + m % size;
    assert m * 128 + d == (q * 128) * size + y;
    CutMultiple(q * 128, y, size);
  }

  lemma CutNext(m: nat, size: nat)
    requires size > 0
    ensures (m % size + 1) % size == (m + 1) % size
  {
    assert m + 1 == m / size * size + (m % size + 1);
    CutMultiple(m / size, m % size + 1, size);
  }

  lemma CutMultiple(q: nat, y: nat, size: nat)
    requires size > 0
    ensures (q * size + y) % size == y % size
  {
    var k, r := y / size, y % size;
    assert q * size + y == (q + k) * size + r;
    P.DivMod(q + k, r, size);
  }

  // ---------------------------------------------------------------- signed numbers

  /** A 32-bit word as a number of type `int`. */
  function Signed32(n: nat): int {
    if n < WORD32 / 2 then n else n - WORD32
  }

  predicate IsInt32(n: int) {
    -(WORD32 / 2) <= n < WORD32 / 2
  }

  /** What is written for a number of a signed type: a negative one loses all but its low seven bits. */
  function Written(n: int): (r: seq<Byte>) {
    Encoding(ReadBack(n))
  }

  function ReadBack(n: int): (r: nat)
    ensures r == n <==> n >= 0
  {
    if n < 0 then n % 128 else n
  }

  // ---------------------------------------------------------------- the code

  /** `GetSizeOfVarInt`. */
  method GetSizeOfVarInt(number: int) returns (nRet: nat)
    ensures nRet == |Written(number)|
  {
    nRet := 0;
    var n := number;
    while true
      invariant nRet + |Encode(ReadBack(n), nRet == 0)| == |Written(number)|
      decreases ReadBack(n)
    {
      nRet := nRet + 1;
      if n <= 0x7F {
        break;
      }
      n := n / 128 - 1;
    }
  }

  function Reverse(s: seq<Byte>): (r: seq<Byte>)
    ensures |r| == |s|
  {
    if s == [] then [] else Reverse(s[1..]) + [s[0]]
  }

  lemma {:induction false} ReverseSnoc(s: seq<Byte>, x: Byte)
    ensures Reverse(s + [x]) == [x] + Reverse(s)
    decreases |s|
  {
    if s == [] {
      assert s + [x] == [x] && [x][1..] == [];
    } else {
      assert (s + [x])[1..] == s[1..] + [x];
      ReverseSnoc(s[1..], x);
    }
  }

  // ---------------------------------------------------------------- the buffer

  /** The number of bytes of the buffer for a type of `bits` bits. */
  function BufferSize(bits: nat): nat {
    (bits + 6) / 7
  }

  /** A number below 128^k has at most `k` digits. */
  lemma {:induction false} DigitsBelow(n: nat, last: bool, k: nat)
    requires k > 0 && n < Pow2(7 * k)
    ensures |Encode(n, last)| <= k
    decreases k
  {
    Pow128(k - 1);
    if k > 1 && n >= 128 {
      Below(n, Pow2(7 * (k - 1)));
      DigitsBelow(n / 128 - 1, false, k - 1);
    }
  }

  lemma Pow128(k: nat)
    ensures Pow2(7 * (k + 1)) == 128 * Pow2(7 * k)
  {
    var m := 7 * k;
    assert 7 * (k + 1) == m + 7;
    assert Pow2(m + 7) == 2 * Pow2(m + 6) && Pow2(m + 6) == 2 * Pow2(m + 5) && Pow2(m + 5) == 2 * Pow2(m + 4);
    assert Pow2(m + 4) == 2 * Pow2(m + 3) && Pow2(m + 3) == 2 * Pow2(m + 2) && Pow2(m + 2) == 2 * Pow2(m + 1);
  }

  lemma Below(n: nat, p: nat)
    requires n < 128 * p
    ensures n / 128 < p
  {
  }

  lemma {:induction false} Pow2Grows(a: nat, b: nat)
    requires a <= b
    ensures Pow2(a) <= Pow2(b)
    decreases b
  {
    if a < b {
      Pow2Grows(a, b - 1);
    }
  }

  /** The buffer has room for every number of its type. */
  lemma BufferSuffices(n: int, bits: nat)
    requires bits > 0 && n < Pow2(bits)
    ensures |Written(n)| <= BufferSize(bits)
  {
    var k := BufferSize(bits);
    Pow2Grows(bits, 7 * k);
    if n < 0 {
      assert Encoding(n % 128) == [n % 128];
    } else {
      DigitsBelow(n, true, k);
    }
  }

  /** The second loop of `WriteVarInt`: the buffer goes out in reverse. */
  method WriteReversed(os: seq<Byte>, tmp: array<Byte>, count: nat) returns (out: seq<Byte>)
    requires count <= tmp.Length
    ensures out == os + Reverse(tmp[..count])
  {
    out := os;
    var len := count;
    while len > 0
      invariant 0 <= len <= count
      invariant out + Reverse(tmp[..len]) == os + Reverse(tmp[..count])
    {
      assert tmp[..len] == tmp[..len - 1] + [tmp[len - 1]];
      ReverseSnoc(tmp[..len - 1], tmp[len - 1]);
      len := len - 1;
      out := out + [tmp[len]];
    }
  }

  lemma Shift(s: seq<Byte>, x: Byte, t: seq<Byte>)
    ensures s + [x] + t == s + ([x] + t)
  {
  }

  /** `WriteVarInt` of a number of a type of `bits` bits: digits into a buffer, least significant first, then out in reverse. */
  method WriteVarInt(os: seq<Byte>, number: int, bits: nat) returns (out: seq<Byte>)
    requires bits > 0 && number < Pow2(bits)
    ensures out == os + Written(number)
  {
    hide Encode, Reverse, Pow2;
    BufferSuffices(number, bits);
    var tmp: array<Byte> := new Byte[(bits + 6) / 7](_ => 0);
    var n, len := number, 0;
    assert Reverse(tmp[..0]) == [];
    while n > 0x7F
      invariant 0 <= len < tmp.Length
      invariant Encode(ReadBack(n), len == 0) + Reverse(tmp[..len]) == Written(number)
      decreases n
    {
      var b: Byte := n % 128 + if len > 0 then 128 else 0;
      EncodeSplit(n / 128, n % 128, len == 0);
      ReverseSnoc(tmp[..len], b);
      Shift(Encode(n / 128 - 1, false), b, Reverse(tmp[..len]));
      ghost var before := tmp[..len];
      tmp[len] := b;
      assert tmp[..len + 1] == before + [b];
      n := n / 128 - 1;
      len := len + 1;
      assert |Encode(ReadBack(n), false)| + len == |Written(number)|;
    }
    var b: Byte := n % 128 + if len > 0 then 128 else 0;
    EncodeSplit(0, n % 128, len == 0);
    ReverseSnoc(tmp[..len], b);
    ghost var before := tmp[..len];
    tmp[len] := b;
    assert tmp[..len + 1] == before + [b];
    out := WriteReversed(os, tmp, len + 1);
  }

  /** `ReadVarInt` into an unsigned type of `size` values; running off the end of the stream throws. */
  method ReadVarInt(is_: seq<Byte>, size: nat) returns (r: Option<(nat, seq<Byte>)>)
    requires size > 0
    ensures r == DecodeIn(size, is_)
  {
    var n: nat := 0;
    var s := is_;
    ghost var m: nat := 0;
    while true
      invariant Decode(m, s) == Decode(0, is_) && n == m % size
      decreases |s|
    {
      if s == [] {
        return None;
      }
      var chData := s[0];
      s := s[1..];
      CutStep(m, chData % 128, size);
      n := (n * 128 + chData % 128) % size;
      m := m * 128 + chData % 128;
      if chData >= 128 {
        CutNext(m, size);
        n := (n + 1) % size;
        m := m + 1;
      } else {
        return Some((n, s));
      }
    }
  }
}
