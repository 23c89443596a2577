/** Base58 and Base58Check (src/base58.cpp). */
module Base58 {
  import opened Common
  import opened Positional

  /** All alphanumeric characters except for "0", "I", "O", and "l". */
  const ALPHABET: string := "123456789" + "ABCDEFGH" + "JKLMN" + "PQRSTUVWXYZ" + "abcdefghijk" + "mnopqrstuvwxyz"

  // ---------------------------------------------------------------- the buffers are large enough

  /** Eight bytes fit in eleven base-58 digits. */
  lemma EightBytes()
    ensures Pow(256, 8) <= Pow(58, 11)
  {
    assert Pow(256, 4) == 4294967296;
    PowAdd(256, 4, 4);
    assert Pow(58, 5) == 656356768;
    PowAdd(58, 5, 5);
    PowAdd(58, 1, 10);
    assert Pow(58, 1) == 58;
  }

  /** The 138/100 rule: `n` bytes always fit in the base-58 buffer. */
  lemma {:induction false} EncodeBufferSuffices(n: nat)
    ensures Pow(256, n) <= Pow(58, n * 138 / 100 + 1)
  {
    hide Pow;
    if n < 8 {
      SmallEncode(n);
    } else {
      EncodeBufferSuffices(n - 8);
      EightBytes();
      PowAdd(256, 8, n - 8);
      var d := (n - 8) * 138 / 100 + 1;
      PowAdd(58, 11, d);
      MulLe(Pow(256, 8), Pow(58, 11), Pow(256, n - 8), Pow(58, d));
      assert 11 + d <= n * 138 / 100 + 1;
      PowMono(58, 11 + d, n * 138 / 100 + 1);
    }
  }

  lemma SmallEncode(n: nat)
    requires n < 8
    ensures Pow(256, n) <= Pow(58, n * 138 / 100 + 1)
  {
    assert Pow(256, 1) == 256 && Pow(256, 2) == 65536 && Pow(256, 3) == 16777216 && Pow(256, 4) == 4294967296;
    assert Pow(256, 5) == 1099511627776 && Pow(256, 6) == 281474976710656 && Pow(256, 7) == 72057594037927936;
    assert Pow(58, 1) == 58 && Pow(58, 2) == 3364 && Pow(58, 3) == 195112 && Pow(58, 4) == 11316496;
    assert Pow(58, 5) == 656356768 && Pow(58, 6) == 38068692544 && Pow(58, 7) == 2207984167552;
    assert Pow(58, 8) == 128063081718016 && Pow(58, 9) == 7427658739644928 && Pow(58, 10) == 430804206899405824;
  }

  lemma PowersOf58()
    ensures Pow(58, 10) == 430804206899405824 && Pow(58, 20) == 185592264682226060569122324245118976
    ensures Pow(58, 40) == 34444488709877454747081479018851205589883534409595458615323760395288576
  {
    assert Pow(58, 5) == 656356768;
    PowAdd(58, 5, 5);
    PowAdd(58, 10, 10);
    PowAdd(58, 20, 20);
  }

  lemma PowersOf256()
    ensures Pow(256, 16) == 340282366920938463463374607431768211456
    ensures Pow(256, 32) == 115792089237316195423570985008687907853269984665640564039457584007913129639936
  {
    assert Pow(256, 4) == 4294967296;
    PowAdd(256, 4, 4);
    PowAdd(256, 8, 8);
    PowAdd(256, 16, 16);
  }

  /** Seventy-one base-58 digits fit in fifty-two bytes. */
  lemma SeventyOneDigits()
    ensures Pow(58, 71) <= Pow(256, 52)
  {
    PowersOf58();
    assert Pow(58, 1) == 58;
    PowAdd(58, 40, 20);
    PowAdd(58, 60, 10);
    PowAdd(58, 70, 1);
    PowersOf256();
    assert Pow(256, 4) == 4294967296;
    PowAdd(256, 32, 16);
    PowAdd(256, 48, 4);
  }

  lemma FifteenDigits()
    ensures Pow(58, 15) <= Pow(256, 11)
  {
    assert Pow(58, 5) == 656356768;
    PowAdd(58, 5, 5);
    PowAdd(58, 10, 5);
    assert Pow(256, 4) == 4294967296 && Pow(256, 3) == 16777216;
    PowAdd(256, 4, 4);
    PowAdd(256, 8, 3);
  }

  /** Fewer than fifteen digits, with one byte in hand. */
  lemma SmallDecode(n: nat)
    requires n < 15
    ensures Pow(58, n) <= Pow(256, (n * 733 + 980) / 1000)
  {
    assert Pow(256, 1) == 256 && Pow(256, 2) == 65536 && Pow(256, 3) == 16777216 && Pow(256, 4) == 4294967296;
    assert Pow(256, 5) == 1099511627776 && Pow(256, 6) == 281474976710656 && Pow(256, 7) == 72057594037927936;
    assert Pow(256, 8) == 18446744073709551616 && Pow(256, 9) == 4722366482869645213696;
    assert Pow(256, 10) == 1208925819614629174706176 && Pow(256, 11) == 309485009821345068724781056;
    assert Pow(58, 1) == 58 && Pow(58, 2) == 3364 && Pow(58, 3) == 195112 && Pow(58, 4) == 11316496;
    assert Pow(58, 5) == 656356768 && Pow(58, 6) == 38068692544 && Pow(58, 7) == 2207984167552;
    assert Pow(58, 8) == 128063081718016 && Pow(58, 9) == 7427658739644928 && Pow(58, 10) == 430804206899405824;
    assert Pow(58, 11) == 24986644000165537792 && Pow(58, 12) == 1449225352009601191936;
    assert Pow(58, 13) == 84055070416556869132288 && Pow(58, 14) == 4875194084160298409672704;
  }

  lemma {:induction false} DecodeBelow71(n: nat, a: nat)
    requires n <= 70 && n == 15 * a + n % 15
    ensures Pow(58, n) <= Pow(256, 11 * a + (n % 15 * 733 + 980) / 1000)
    decreases a
  {
    hide Pow;
    if a == 0 {
      SmallDecode(n);
    } else {
      DecodeBelow71(n - 15, a - 1);
      FifteenDigits();
      PowAdd(58, 15, n - 15);
      var d := 11 * (a - 1) + (n % 15 * 733 + 980) / 1000;
      PowAdd(256, 11, d);
      MulLe(Pow(58, 15), Pow(256, 11), Pow(58, n - 15), Pow(256, d));
    }
  }

  /** The 733/1000 rule: `n` base-58 digits always fit in the byte buffer. */
  lemma {:induction false} DecodeBufferSuffices(n: nat)
    ensures Pow(58, n) <= Pow(256, n * 733 / 1000 + 1)
  {
    hide Pow;
    if n <= 70 {
      DecodeBelow71(n, n / 15);
      PowMono(256, 11 * (n / 15) + (n % 15 * 733 + 980) / 1000, n * 733 / 1000 + 1);
    } else {
      DecodeBufferSuffices(n - 71);
      SeventyOneDigits();
      PowAdd(58, 71, n - 71);
      var d := (n - 71) * 733 / 1000 + 1;
      PowAdd(256, 52, d);
      MulLe(Pow(58, 71), Pow(256, 52), Pow(58, n - 71), Pow(256, d));
      PowMono(256, 52 + d, n * 733 / 1000 + 1);
    }
  }

  // ---------------------------------------------------------------- the carry loop

  lemma {:induction false} CarryStep(v0: nat, mul: nat, add: nat, v1: nat, carry: nat, p: nat, d: nat, b: nat)
    requires b > 0 && v0 * mul + add == v1 + carry * p
    ensures var t := carry + mul * d;
            (d * p + v0) * mul + add == ((t % b) * p + v1) + (t / b) * (b * p)
  {
    var t := carry + mul * d;
    assert (d * p + v0) * mul == (mul * d) * p + v0 * mul;
    assert (mul * d) * p + carry * p == t * p;
    assert t == (t / b) * b + t % b;
    assert t * p == ((t / b) * b) * p + (t % b) * p;
    assert ((t / b) * b) * p == (t / b) * (b * p);
  }

  lemma MulAddStep(rest: seq<nat>, done: seq<nat>, d: nat, mul: nat, add: nat, carry: nat, b: nat)
    requires b > 0 && |rest| == |done| && Value(rest, b) * mul + add == Value(done, b) + carry * Pow(b, |done|)
    ensures var t := carry + mul * d;
            Value([d] + rest, b) * mul + add == Value([t % b] + done, b) + (t / b) * Pow(b, |done| + 1)
  {
    var t := carry + mul * d;
    ValueCons(d, rest, b);
    ValueCons(t % b, done, b);
    CarryStep(Value(rest, b), mul, add, Value(done, b), carry, Pow(b, |done|), d, b);
  }

  /**
   * One turn of the outer loops: `buffer = buffer * mul + add`, digit by digit from the back,
   * with what does not fit left in the carry.
   */
  method MulAdd(a: array<nat>, mul: nat, add: nat, b: nat) returns (carry: nat)
    requires b >= 2 && Digits(a[..], b)
    modifies a
    ensures Digits(a[..], b)
    ensures Value(old(a[..]), b) * mul + add == Value(a[..], b) + carry * Pow(b, a.Length)
  {
    hide Pow;
    hide Value;
    carry := add;
    var i := a.Length;
    ghost var s := a[..];
    assert s[i..] == [] && a[i..] == [];
    MulAddStart(mul, add, b);
    while i > 0
      invariant 0 <= i <= a.Length
      invariant a[..i] == s[..i] && Digits(a[..], b)
      invariant Value(s[i..], b) * mul + add == Value(a[i..], b) + carry * Pow(b, |a[i..]|)
    {
      ghost var before, c := a[i..], carry;
      i := i - 1;
      carry := carry + mul * a[i];
      a[i] := carry % b;
      carry := carry / b;
      assert a[i..] == [a[i]] + before && s[i..] == [s[i]] + s[i + 1..];
      MulAddStep(s[i + 1..], before, s[i], mul, add, c, b);
    }
    assert a[0..] == a[..] && s[0..] == s;
  }

  lemma MulAddStart(mul: nat, add: nat, b: nat)
    ensures Value([], b) * mul + add == Value([], b) + add * Pow(b, 0)
  {
  }

  // ---------------------------------------------------------------- what the two functions compute

  predicate IsSpace(c: char) {
    c as int == 32 || 9 <= c as int <= 13
  }

  /** `strchr(pszBase58, c) - pszBase58`, searching from position `i`. */
  function IndexFrom(c: char, i: nat): (r: Option<nat>)
    requires i <= |ALPHABET|
    ensures r.Some? ==> i <= r.value < |ALPHABET| && ALPHABET[r.value] == c
    ensures r.None? ==> forall k :: i <= k < |ALPHABET| ==> ALPHABET[k] != c
    decreases |ALPHABET| - i
  {
    if i == |ALPHABET| then None else if ALPHABET[i] == c then Some(i) else IndexFrom(c, i + 1)
  }

  function Index(c: char): (r: Option<nat>)
    ensures r.Some? ==> r.value < |ALPHABET| && ALPHABET[r.value] == c
    ensures r.None? ==> forall k :: 0 <= k < |ALPHABET| ==> ALPHABET[k] != c
  {
    IndexFrom(c, 0)
  }

  /** The alphabet consists of runs of consecutive characters. */
  function CharCode(k: nat): int {
    if k < 9 then 49 + k else if k < 17 then 56 + k else if k < 22 then 57 + k
    else if k < 33 then 58 + k else if k < 44 then 64 + k else 65 + k
  }

  lemma ConsecutiveRun(s: string)
    requires s in {"123456789", "ABCDEFGH", "JKLMN", "PQRSTUVWXYZ", "abcdefghijk", "mnopqrstuvwxyz"}
    ensures |s| > 0 && forall i :: 0 <= i < |s| ==> s[i] as int == s[0] as int + i
  {
  }

  lemma AlphabetCodes()
    ensures |ALPHABET| == 58 && forall k :: 0 <= k < 58 ==> ALPHABET[k] as int == CharCode(k)
  {
    ConsecutiveRun("123456789");
    ConsecutiveRun("ABCDEFGH");
    ConsecutiveRun("JKLMN");
    ConsecutiveRun("PQRSTUVWXYZ");
    ConsecutiveRun("abcdefghijk");
    ConsecutiveRun("mnopqrstuvwxyz");
  }

  lemma IndexOfLetter(k: nat)
    requires k < 58
    ensures |ALPHABET| == 58 && Index(ALPHABET[k]) == Some(k) && !IsSpace(ALPHABET[k])
    ensures ALPHABET[k] == '1' <==> k == 0
  {
    hide ALPHABET;
    hide IndexFrom;
    AlphabetCodes();
    assert ALPHABET[k] as int == CharCode(k);
    if Index(ALPHABET[k]).Some? {
      var j := Index(ALPHABET[k]).value;
      assert ALPHABET[j] as int == CharCode(j);
    }
  }

  function Letters(ds: seq<nat>): (r: string)
    requires Digits(ds, 58)
    ensures |r| == |ds|
  {
    AlphabetCodes();
    seq(|ds|, i requires 0 <= i < |ds| => ALPHABET[ds[i]])
  }

  predicate AllLetters(s: string) {
    forall i :: 0 <= i < |s| ==> Index(s[i]).Some?
  }

  function Indices(s: string): (r: seq<nat>)
    requires AllLetters(s)
    ensures |r| == |s| && Digits(r, 58)
  {
    AlphabetCodes();
    seq(|s|, i requires 0 <= i < |s| => Index(s[i]).value)
  }

  lemma IndicesOfLetters(ds: seq<nat>)
    requires Digits(ds, 58)
    ensures AllLetters(Letters(ds)) && Indices(Letters(ds)) == ds
    ensures forall i :: 0 <= i < |ds| ==> !IsSpace(Letters(ds)[i])
  {
    hide ALPHABET;
    hide Index;
    forall i | 0 <= i < |ds| ensures Index(Letters(ds)[i]) == Some(ds[i]) && !IsSpace(Letters(ds)[i]) {
      IndexOfLetter(ds[i]);
    }
  }

  lemma LettersOfIndices(s: string)
    requires AllLetters(s)
    ensures Letters(Indices(s)) == s
  {
    hide ALPHABET;
  }

  /** What `EncodeBase58` returns. */
  function Encoded(bytes: seq<nat>): string
    requires Digits(bytes, 256)
  {
    ConvertBack(bytes, 256, 58);
    Letters(Convert(bytes, 256, 58))
  }

  function DropSpaces(s: string): (r: string)
    ensures |r| <= |s| && r == s[|s| - |r|..]
    ensures r != [] ==> !IsSpace(r[0])
    ensures forall i :: 0 <= i < |s| - |r| ==> IsSpace(s[i])
  {
    if s != [] && IsSpace(s[0]) then DropSpaces(s[1..]) else s
  }

  function WordLength(s: string): (k: nat)
    ensures k <= |s| && (forall i :: 0 <= i < k ==> !IsSpace(s[i])) && (k < |s| ==> IsSpace(s[k]))
  {
    if s != [] && !IsSpace(s[0]) then 1 + WordLength(s[1..]) else 0
  }

  /** The text between leading white space and the next white space. */
  function Word(s: string): string {
    DropSpaces(s)[..WordLength(DropSpaces(s))]
  }

  /** Nothing but white space surrounds the word. */
  predicate OneWord(s: string) {
    DropSpaces(DropSpaces(s)[WordLength(DropSpaces(s))..]) == []
  }

  /** What `DecodeBase58` accepts, and what it returns. */
  function Decoded(s: string): Option<seq<nat>> {
    if OneWord(s) && AllLetters(Word(s)) then Some(Convert(Indices(Word(s)), 58, 256)) else None
  }

  /**
   * Decoding and encoding are inverse: a string decodes to given bytes exactly when it is their
   * encoding with white space around it.
   */
  lemma DecodedExactly(s: string, bytes: seq<nat>)
    requires Digits(bytes, 256)
    ensures Decoded(s) == Some(bytes) <==> OneWord(s) && Word(s) == Encoded(bytes)
  {
    hide Convert;
    hide Word;
    hide OneWord;
    ConvertBack(bytes, 256, 58);
    IndicesOfLetters(Convert(bytes, 256, 58));
    if AllLetters(Word(s)) {
      ConvertBack(Indices(Word(s)), 58, 256);
      LettersOfIndices(Word(s));
    }
  }

  /** Whatever is decoded is a byte string. */
  lemma DecodedBytes(s: string)
    requires Decoded(s).Some?
    ensures Digits(Decoded(s).value, 256)
  {
    ConvertBack(Indices(Word(s)), 58, 256);
  }

  lemma {:induction false} NoSpaces(s: string)
    requires forall i :: 0 <= i < |s| ==> !IsSpace(s[i])
    ensures OneWord(s) && Word(s) == s
  {
    assert DropSpaces(s) == s;
    assert WordLength(s) == |s|;
    assert s[|s|..] == [] && s[..|s|] == s;
  }

  /** Every byte string is recovered from its encoding. */
  lemma DecodedEncoded(bytes: seq<nat>)
    requires Digits(bytes, 256)
    ensures Decoded(Encoded(bytes)) == Some(bytes)
  {
    ConvertBack(bytes, 256, 58);
    IndicesOfLetters(Convert(bytes, 256, 58));
    NoSpaces(Encoded(bytes));
    DecodedExactly(Encoded(bytes), bytes);
  }

  // ---------------------------------------------------------------- the code

  /** Skip the zeroes at the front of a buffer. */
  method SkipZeroes(ds: seq<nat>) returns (k: nat)
    ensures k == LeadingZeroes(ds)
  {
    k := 0;
    while k < |ds| && ds[k] == 0
      invariant k <= |ds| && forall i :: 0 <= i < k ==> ds[i] == 0
    {
      k := k + 1;
    }
    LeadingZeroesUnique(ds, k);
  }

  /** A full buffer value leaves no carry, which is what the two assertions in the source claim. */
  lemma NoCarry(v: nat, carry: nat, total: nat, p: nat)
    requires total == v + carry * p && total < p
    ensures carry == 0 && v == total
  {
    assert carry >= 1 ==> carry * p >= p;
  }

  /** The loop of `EncodeBase58` over the bytes after the leading zeroes. */
  method FillBase58(bytes: seq<nat>) returns (digits: seq<nat>)
    requires Digits(bytes, 256)
    ensures Digits(digits, 58) && Value(digits, 58) == Value(bytes, 256)
  {
    hide Pow;
    var b58 := new nat[|bytes| * 138 / 100 + 1](_ => 0);
    assert b58[..] == Zeroes(b58.Length) + [];
    ValueZeroes(b58.Length, [], 58);
    assert Value([], 58) == 0 && Value([], 256) == 0;
    EncodeBufferSuffices(|bytes|);
    var i := 0;
    assert bytes[..0] == [];
    while i < |bytes|
      invariant 0 <= i <= |bytes| && Digits(b58[..], 58)
      invariant Value(b58[..], 58) == Value(bytes[..i], 256)
    {
      ghost var before := Value(b58[..], 58);
      var carry := MulAdd(b58, 256, bytes[i], 58);
      assert bytes[..i + 1][..i] == bytes[..i];
      PrefixBound(bytes, i + 1, 256, 58, b58.Length);
      NoCarry(Value(b58[..], 58), carry, Value(bytes[..i + 1], 256), Pow(58, b58.Length));
      assert carry == 0;
      i := i + 1;
    }
    assert bytes[..|bytes|] == bytes;
    digits := b58[..];
  }

  lemma PrefixBound(ds: seq<nat>, k: nat, from: nat, to: nat, len: nat)
    requires from >= 1 && k <= |ds| && Digits(ds, from) && Pow(from, |ds|) <= Pow(to, len)
    ensures Value(ds[..k], from) < Pow(to, len)
  {
    ValueBound(ds[..k], from);
    PowMono(from, k, |ds|);
  }

  /** `EncodeBase58`. */
  method EncodeBase58(bytes: seq<nat>) returns (str: string)
    requires Digits(bytes, 256)
    ensures str == Encoded(bytes)
  {
    hide Value;
    hide ToDigits;
    hide LeadingZeroes;
    hide ALPHABET;
    var zeroes := SkipZeroes(bytes);
    var b58 := FillBase58(bytes[zeroes..]);
    var it := SkipZeroes(b58);
    DropZeroes(b58, it, 58);
    ConvertBack(bytes, 256, 58);
    ghost var all := Convert(bytes, 256, 58);
    assert all == Zeroes(zeroes) + b58[it..];
    AlphabetCodes();
    IndexOfLetter(0);
    str := seq(zeroes, _ => '1');
    while it < |b58|
      invariant it <= |b58| && |str| + (|b58| - it) == |all|
      invariant all[|str|..] == b58[it..]
      invariant str == Letters(all)[..|str|]
    {
      assert all[|str|] == all[|str|..][0] == b58[it];
      str := str + [ALPHABET[b58[it]]];
      it := it + 1;
    }
  }

  lemma PrefixBoundShort(ds: seq<nat>, from: nat, to: nat, n: nat, len: nat)
    requires from >= 1 && |ds| <= n && Digits(ds, from) && Pow(from, n) <= Pow(to, len)
    ensures Value(ds, from) < Pow(to, len)
  {
    ValueBound(ds, from);
    PowMono(from, |ds|, n);
  }

  lemma IndicesSnoc(s: string, i: nat)
    requires i < |s| && AllLetters(s[..i]) && Index(s[i]).Some?
    ensures AllLetters(s[..i + 1]) && Indices(s[..i + 1]) == Indices(s[..i]) + [Index(s[i]).value]
  {
    hide Index;
    assert s[..i + 1] == s[..i] + [s[i]];
  }

  lemma {:induction false} WordLengthUnique(s: string, k: nat)
    requires k <= |s| && (forall i :: 0 <= i < k ==> !IsSpace(s[i])) && (k < |s| ==> IsSpace(s[k]))
    ensures WordLength(s) == k
  {
  }

  /** The buffer holds the value of the first `i` characters. */
  ghost predicate Holds(b256: seq<nat>, psz: string, i: nat) {
    i <= |psz| && Digits(b256, 256) && AllLetters(psz[..i]) && Value(b256, 256) == Value(Indices(psz[..i]), 58)
  }

  lemma HoldsMore(b256: seq<nat>, b256': seq<nat>, psz: string, i: nat, carry: nat)
    requires i < |psz| && Holds(b256, psz, i) && Index(psz[i]).Some? && |b256'| == |b256| && Digits(b256', 256)
    requires Pow(58, |psz|) <= Pow(256, |b256|)
    requires Value(b256', 256) + carry * Pow(256, |b256|) == Value(b256, 256) * 58 + Index(psz[i]).value
    ensures carry == 0 && Holds(b256', psz, i + 1)
  {
    hide Pow, Index, Indices, Value, AllLetters;
    var d := Index(psz[i]).value;
    IndicesSnoc(psz, i);
    ValueSnoc(Indices(psz[..i]), d, 58);
    PrefixBoundShort(Indices(psz[..i + 1]), 58, 256, |psz|, |b256|);
    NoCarry(Value(b256', 256), carry, Value(Indices(psz[..i + 1]), 58), Pow(256, |b256|));
  }

  /** One turn of the main loop of `DecodeBase58`; its assertion on the carry holds. */
  method PushLetter(b256: array<nat>, psz: string, i: nat, d: nat)
    requires i < |psz| && Holds(b256[..], psz, i) && Index(psz[i]) == Some(d) && Pow(58, |psz|) <= Pow(256, b256.Length)
    modifies b256
    ensures Holds(b256[..], psz, i + 1)
  {
    hide Pow, Index, Indices, Value, AllLetters;
    ghost var before := b256[..];
    var carry := MulAdd(b256, 58, d, 256);
    HoldsMore(before, b256[..], psz, i, carry);
    assert carry == 0;
  }

  /** The main loop of `DecodeBase58`, on the text after the leading ones. */
  method FillBase256(psz: string) returns (ok: bool, bytes: seq<nat>, i: nat)
    ensures ok <==> GoodWord(psz)
    ensures ok ==> Filled(bytes, psz, i)
  {
    hide IsSpace, Pow, Index, Indices, Value, WordLength, AllLetters, Holds;
    var b256 := new nat[|psz| * 733 / 1000 + 1](_ => 0);
    DecodeBufferSuffices(|psz|);
    i := 0;
    assert b256[..] == Zeroes(b256.Length) + [];
    HoldsNone(b256[..], psz);
    while i < |psz| && !IsSpace(psz[i])
      invariant i <= |psz| && Holds(b256[..], psz, i)
      invariant forall k :: 0 <= k < i ==> !IsSpace(psz[k])
    {
      var ch := Index(psz[i]);
      if ch.None? {
        NotLetters(psz, i);
        return false, [], i;
      }
      PushLetter(b256, psz, i, ch.value);
      i := i + 1;
    }
    WordLengthUnique(psz, i);
    HoldsMeans(b256[..], psz, i);
    return true, b256[..], i;
  }

  /** The first word has letters only. */
  predicate GoodWord(psz: string) {
    AllLetters(psz[..WordLength(psz)])
  }

  /** The buffer holds the value of the first word, which has letters only and ends at `i`. */
  ghost predicate Filled(b256: seq<nat>, psz: string, i: nat) {
    i == WordLength(psz) && Holds(b256, psz, i)
  }

  lemma HoldsMeans(b256: seq<nat>, psz: string, i: nat)
    requires Holds(b256, psz, i) && i == WordLength(psz)
    ensures Filled(b256, psz, i) && GoodWord(psz)
  {
  }

  lemma HoldsNone(b256: seq<nat>, psz: string)
    requires b256 == Zeroes(|b256|) + []
    ensures Holds(b256, psz, 0)
  {
    hide Value, Indices, AllLetters;
    EmptyWord();
    ValueZeroes(|b256|, [], 256);
    assert psz[..0] == [];
  }

  lemma EmptyWord()
    ensures AllLetters([]) && Value(Indices([]), 58) == 0 && Value([], 256) == 0
  {
  }

  /** A foreign character spoils the word it stands in. */
  lemma NotLetters(s: string, i: nat)
    requires i < |s| && (forall k :: 0 <= k <= i ==> !IsSpace(s[k])) && Index(s[i]).None?
    ensures !AllLetters(s[..WordLength(s)])
  {
    var k := WordLength(s);
    assert i < k;
    assert s[..k][i] == s[i];
  }

  method SkipSpaces(s: string, from: nat) returns (i: nat)
    requires from <= |s|
    ensures from <= i <= |s| && s[i..] == DropSpaces(s[from..])
  {
    i := from;
    while i < |s| && IsSpace(s[i])
      invariant from <= i <= |s| && DropSpaces(s[from..]) == DropSpaces(s[i..])
    {
      assert s[i..][1..] == s[i + 1..];
      i := i + 1;
    }
  }

  /** Leading ones belong to the word they stand in front of. */
  lemma OnesInWord(t: string, z: nat)
    requires z <= |t| && forall i :: 0 <= i < z ==> t[i] == '1'
    ensures WordLength(t) == z + WordLength(t[z..])
  {
    hide WordLength;
    var u := t[z..];
    assert forall i :: z <= i < |t| ==> t[i] == u[i - z];
    WordLengthUnique(t, z + WordLength(u));
  }

  /** The digits of a word with `z` leading ones have `z` leading zeroes. */
  lemma OnesAreZeroes(w: string, z: nat)
    requires z <= |w| && (forall i :: 0 <= i < z ==> w[i] == '1') && (z < |w| ==> w[z] != '1')
    ensures AllLetters(w) <==> AllLetters(w[z..])
    ensures AllLetters(w) ==> LeadingZeroes(Indices(w)) == z && Indices(w)[z..] == Indices(w[z..])
  {
    hide ALPHABET;
    hide Index;
    hide LeadingZeroes;
    IndexOfLetter(0);
    assert Index('1') == Some(0);
    assert forall i :: z <= i < |w| ==> w[i] == w[z..][i - z];
    if AllLetters(w[z..]) {
      assert AllLetters(w);
      var ds := Indices(w);
      assert ds[z..] == Indices(w[z..]);
      if z < |w| {
        IndexOfLetter(ds[z]);
        assert ds[z..][0] == ds[z];
      }
      LeadingZeroesUnique(ds, z);
    }
  }

  /** The two parts in which the code reads a text without leading space give its word. */
  lemma WordInParts(t: string, z: nat, n: nat)
    requires Ones(t, z) && n == WordLength(t[z..])
    ensures WordLength(t) == z + n && (AllLetters(t[..z + n]) <==> AllLetters(t[z..][..n]))
  {
    hide WordLength, AllLetters, Indices, LeadingZeroes;
    OnesInWord(t, z);
    OnesAreZeroes(t[..z + n], z);
    assert t[..z + n][z..] == t[z..][..n];
  }

  /** The leading ones are the leading zeroes of the bytes. */
  lemma BytesInParts(t: string, z: nat, n: nat)
    requires Ones(t, z) && n == WordLength(t[z..]) && z + n <= |t| && AllLetters(t[..z + n]) && AllLetters(t[z..][..n])
    ensures Convert(Indices(t[..z + n]), 58, 256) == Zeroes(z) + ToDigits(Value(Indices(t[z..][..n]), 58), 256)
  {
    hide WordLength, AllLetters, Indices, Value, ToDigits, LeadingZeroes;
    OnesAreZeroes(t[..z + n], z);
    assert t[..z + n][z..] == t[z..][..n];
  }

  /** `DecodeBase58` on a C string, which has no NUL inside. */
  method DecodeBase58(psz: string) returns (ok: bool, vch: seq<nat>)
    ensures Decoded(psz) == if ok then Some(vch) else None
  {
    var i := SkipSpaces(psz, 0);
    assert psz[0..] == psz;
    ok, vch := DecodeTrimmed(psz[i..]);
    DecodedTrimmed(psz, psz[i..]);
  }

  /** The decoding of a text that does not start with white space. */
  function DecodedFrom(t: string): Option<seq<nat>> {
    var n := WordLength(t);
    if DropSpaces(t[n..]) == [] && AllLetters(t[..n]) then Some(Convert(Indices(t[..n]), 58, 256)) else None
  }

  lemma DecodedTrimmed(s: string, t: string)
    requires t == DropSpaces(s)
    ensures Decoded(s) == DecodedFrom(t)
  {
    hide DropSpaces, WordLength, AllLetters, Indices, Convert;
  }

  /** The text starts with exactly `z` ones. */
  predicate Ones(psz: string, z: nat) {
    z <= |psz| && (forall k :: 0 <= k < z ==> psz[k] == '1') && (z < |psz| ==> psz[z] != '1')
  }

  lemma OnesEnd(psz: string, z: nat)
    requires Ones(psz, z)
    ensures z <= |psz|
  {
  }

  /** The white space from `from` on ends at `i`. */
  predicate SpacesEnd(s: string, from: nat, i: nat) {
    from <= i <= |s| && s[i..] == DropSpaces(s[from..])
  }

  /** What is decoded, with the word named. */
  lemma DecodedWord(t: string, n: nat, word: string, rest: string)
    requires n == WordLength(t) && word == t[..n] && rest == DropSpaces(t[n..])
    ensures rest != [] || !AllLetters(word) ==> DecodedFrom(t) == None
    ensures rest == [] && AllLetters(word) ==> DecodedFrom(t) == Some(Convert(Indices(word), 58, 256))
  {
    hide DropSpaces, WordLength, AllLetters, Indices, Convert;
  }

  /** A text whose first word has a foreign character is refused. */
  lemma BadWord(psz: string, z: nat)
    requires Ones(psz, z) && !GoodWord(psz[z..])
    ensures DecodedFrom(psz) == None
  {
    hide DropSpaces, WordLength, AllLetters, Indices, Convert, DecodedFrom, Ones, IsSpace;
    OnesEnd(psz, z);
    var n := WordLength(psz[z..]);
    WordInParts(psz, z, n);
    DecodedWord(psz, z + n, psz[..z + n], DropSpaces(psz[z + n..]));
  }

  /** So is one with something after the first word. */
  lemma BadRest(psz: string, z: nat, b256: seq<nat>, n: nat, end: nat)
    requires Ones(psz, z) && Filled(b256, psz[z..], n) && SpacesEnd(psz, z + n, end) && end != |psz|
    ensures DecodedFrom(psz) == None
  {
    hide DropSpaces, WordLength, AllLetters, Indices, Convert, Value, DecodedFrom, Ones, IsSpace, Holds;
    WordInParts(psz, z, n);
    DecodedWord(psz, z + n, psz[..z + n], psz[end..]);
  }

  /** A text of one word of letters gives the bytes of that word. */
  lemma GoodRest(psz: string, z: nat, b256: seq<nat>, n: nat, it: nat)
    requires Ones(psz, z) && Filled(b256, psz[z..], n) && SpacesEnd(psz, z + n, |psz|) && it == LeadingZeroes(b256)
    ensures DecodedFrom(psz) == Some(Zeroes(z) + b256[it..])
  {
    hide DropSpaces, WordLength, AllLetters, Indices, Convert, Value, ToDigits, LeadingZeroes, DecodedFrom, Ones, IsSpace, Zeroes;
    WordInParts(psz, z, n);
    DecodedWord(psz, z + n, psz[..z + n], psz[|psz|..]);
    BytesInParts(psz, z, n);
    DropZeroes(b256, it, 256);
  }

  /** The loop over the leading ones. */
  method SkipOnes(psz: string) returns (zeroes: nat)
    ensures Ones(psz, zeroes)
  {
    zeroes := 0;
    while zeroes < |psz| && psz[zeroes] == '1'
      invariant zeroes <= |psz| && forall k :: 0 <= k < zeroes ==> psz[k] == '1'
    {
      zeroes := zeroes + 1;
    }
  }

  method DecodeTrimmed(psz: string) returns (ok: bool, vch: seq<nat>)
    ensures DecodedFrom(psz) == if ok then Some(vch) else None
  {
    hide LeadingZeroes, DecodedFrom, GoodWord, DropSpaces;
    var zeroes := SkipOnes(psz);
    var good, b256, n := FillBase256(psz[zeroes..]);
    if !good {
      BadWord(psz, zeroes);
      return false, [];
    }
    assert n <= |psz[zeroes..]| by { FilledEnd(b256, psz[zeroes..], n); }
    hide Filled;
    var end := SkipSpaces(psz, zeroes + n);
    assert SpacesEnd(psz, zeroes + n, end);
    hide SpacesEnd, Ones;
    if end != |psz| {
      BadRest(psz, zeroes, b256, n, end);
      return false, [];
    }
    var it := SkipZeroes(b256);
    GoodRest(psz, zeroes, b256, n, it);
    return true, seq(zeroes, _ => 0) + b256[it..];
  }

  lemma FilledEnd(b256: seq<nat>, psz: string, n: nat)
    requires Filled(b256, psz, n)
    ensures n <= |psz|
  {
  }

  // ---------------------------------------------------------------- strings and checksums

  /** What `c_str()` lets a C function see of a string. */
  function CString(s: string): (r: string)
    ensures r <= s
  {
    if s == [] || s[0] as int == 0 then [] else [s[0]] + CString(s[1..])
  }

  /** `DecodeBase58(const std::string&)`. */
  method DecodeBase58String(str: string) returns (ok: bool, vch: seq<nat>)
    ensures Decoded(CString(str)) == if ok then Some(vch) else None
  {
    ok, vch := DecodeBase58(CString(str));
  }

  /** The first four bytes of the double hash of a byte string. */
  type Checksum = seq<nat> -> seq<nat>

  ghost predicate IsChecksum(sum: Checksum) {
    forall bytes :: |sum(bytes)| == 4 && Digits(sum(bytes), 256)
  }

  /** `EncodeBase58Check`. */
  method EncodeBase58Check(sum: Checksum, bytes: seq<nat>) returns (str: string)
    requires IsChecksum(sum) && Digits(bytes, 256)
    ensures Digits(bytes + sum(bytes), 256) && str == Encoded(bytes + sum(bytes))
  {
    var vch := bytes + sum(bytes);
    str := EncodeBase58(vch);
  }

  function DecodedCheck(sum: Checksum, s: string): Option<seq<nat>> {
    match Decoded(s)
    case None => None
    case Some(vch) =>
      if |vch| < 4 || sum(vch[..|vch| - 4]) != vch[|vch| - 4..] then None else Some(vch[..|vch| - 4])
  }

  /** `DecodeBase58Check`. */
  method DecodeBase58Check(sum: Checksum, psz: string) returns (ok: bool, vch: seq<nat>)
    ensures DecodedCheck(sum, psz) == if ok then Some(vch) else None
    ensures !ok ==> vch == []
  {
    ok, vch := DecodeBase58(psz);
    if !ok || |vch| < 4 {
      return false, [];
    }
    if sum(vch[..|vch| - 4]) != vch[|vch| - 4..] {
      return false, [];
    }
    vch := vch[..|vch| - 4];
  }

  /** A string passes the check for given bytes exactly when it is their checked encoding in white space. */
  lemma DecodedCheckExactly(sum: Checksum, s: string, bytes: seq<nat>)
    requires IsChecksum(sum) && Digits(bytes, 256)
    ensures Digits(bytes + sum(bytes), 256)
    ensures DecodedCheck(sum, s) == Some(bytes) <==> OneWord(s) && Word(s) == Encoded(bytes + sum(bytes))
  {
    hide Decoded;
    hide OneWord;
    hide Word;
    var all := bytes + sum(bytes);
    DecodedExactly(s, all);
    assert all[..|all| - 4] == bytes && all[|all| - 4..] == sum(bytes);
    if Decoded(s).Some? && |Decoded(s).value| >= 4 {
      var vch := Decoded(s).value;
      assert vch == vch[..|vch| - 4] + vch[|vch| - 4..];
    }
  }
}
