/**
 * The bytes of the database format as its documentation gives them: the value of a variable-length integer, the codes of
 * amounts, and the two coin records written out as examples (src/serialize.h, src/compressor.cpp, src/coins.h).
 */
module CoinsFormat {
  import opened Common
  import A = Amount
  import C = Coins
  import CC = CoinsCodec
  import P = Positional
  import opened TxOutCodec
  import opened VarInt

  // ---------------------------------------------------------------- variable-length integers

  /** The sum of the digits from byte `i` on: base 128, with one added to every digit but the last. */
  function Worth(a: seq<Byte>, i: nat): nat
    requires i <= |a|
    decreases |a| - i
  {
    if i == |a| then 0
    else (a[i] % 128 + if i == |a| - 1 then 0 else 1) * P.Pow(128, |a| - 1 - i) + Worth(a, i + 1)
  }

  lemma {:induction false} WorthSnoc(a: seq<Byte>, e: Byte, d: Byte, i: nat)
    requires i <= |a|
    ensures Worth(a + [e] + [d], i) == 128 * Worth(a + [e], i) + 128 + d % 128
    decreases |a| - i
  {
    var s, t := a + [e] + [d], a + [e];
    if i == |a| {
      assert Worth(s, i + 2) == 0 && Worth(t, i + 1) == 0;
      assert P.Pow(128, 0) == 1 && P.Pow(128, 1) == 128 * P.Pow(128, 0);
    } else {
      WorthSnoc(a, e, d, i + 1);
      var k := |a| - i;
      assert P.Pow(128, k + 1) == 128 * P.Pow(128, k);
      assert s[i] == a[i] == t[i];
      TimesPower(a[i] % 128 + 1, P.Pow(128, k));
    }
  }

  lemma TimesPower(d: nat, p: nat)
    ensures d * (128 * p) == 128 * (d * p)
  {
  }

  lemma OneDigit(n: nat, last: bool)
    requires n < 128
    ensures Encode(n, last) == [n + if last then 0 else 128]
  {
  }

  lemma Digit(n: nat, q: nat, d: nat, last: bool)
    requires d < 128 && q >= 1 && n == 128 * q + d
    ensures Encode(n, last) == Encode(q - 1, false) + [d + if last then 0 else 128]
  {
    EncodeSplit(q, d, last);
  }

  lemma LastWorth(d: Byte)
    ensures Worth([d], 0) == d % 128
  {
    assert Worth([d], 1) == 0 && P.Pow(128, 0) == 1;
  }

  lemma {:induction false} EncodeWorth(n: nat, last: bool)
    ensures var a := Encode(n, last);
            && Worth(a, 0) == n && (a[|a| - 1] < 128 <==> last)
            && forall i :: 0 <= i < |a| - 1 ==> a[i] >= 128
    decreases n
  {
    hide Encode, Worth;
    var d: Byte := n % 128 + if last then 0 else 128;
    if n < 128 {
      OneDigit(n, last);
      LastWorth(d);
    } else {
      EncodeWorth(n / 128 - 1, false);
      var b := Encode(n / 128 - 1, false);
      assert b == b[..|b| - 1] + [b[|b| - 1]];
      WorthSnoc(b[..|b| - 1], b[|b| - 1], d, 0);
      Digit(n, n / 128, n % 128, last);
    }
  }

  /** The high bit marks all bytes but the last, and the bytes are worth the number: the documented formula. */
  lemma EncodingWorth(n: nat)
    ensures var a := Encoding(n);
            && Worth(a, 0) == n && a[|a| - 1] < 128
            && forall i :: 0 <= i < |a| - 1 ==> a[i] >= 128
  {
    EncodeWorth(n, true);
  }

  lemma TwoDigits(n: nat, q: nat, d: nat, last: bool)
    requires d < 128 && 1 <= q <= 128 && n == 128 * q + d
    ensures Encode(n, last) == [q + 127, d + if last then 0 else 128]
  {
    Digit(n, q, d, last);
    assert Encode(q - 1, false) == [q - 1 + 128];
  }

  lemma ThreeDigits(n: nat, p: nat, q: nat, d: nat, last: bool)
    requires d < 128 && 1 <= p <= 128 && 1 <= q <= 128 && n == 128 * (128 * p + q) + d
    ensures Encode(n, last) == [p + 127, q + 127, d + if last then 0 else 128]
  {
    Digit(n, 128 * p + q, d, last);
    TwoDigits(128 * p + q - 1, p, q - 1, false);
  }

  /** The numbers listed with their encodings, where the list agrees with the code. */
  lemma DocumentedNumbers()
    ensures Encoding(0) == [0x00] && Encoding(1) == [0x01] && Encoding(127) == [0x7F]
    ensures Encoding(128) == [0x80, 0x00] && Encoding(255) == [0x80, 0x7F] && Encoding(256) == [0x81, 0x00]
    ensures Encoding(16383) == [0xFE, 0x7F] && Encoding(16384) == [0xFF, 0x00]
    ensures Encoding(0x1_0000_0000) == [0x8E, 0xFE, 0xFE, 0xFF, 0x00]
  {
    hide Encode;
    OneDigit(0, true);
    OneDigit(1, true);
    OneDigit(127, true);
    TwoDigits(128, 1, 0, true);
    TwoDigits(255, 1, 127, true);
    TwoDigits(256, 2, 0, true);
    TwoDigits(16383, 127, 127, true);
    TwoDigits(16384, 128, 0, true);
    Digit(0x1_0000_0000, 0x200_0000, 0, true);
    Digit(0x1FF_FFFF, 0x3_FFFF, 0x7F, false);
    ThreeDigits(0x3_FFFE, 15, 127, 126, false);
  }

  /** Two entries of the list disagree with the code, which writes 16511 in two bytes and 65535 with 0xFE in the middle. */
  lemma MisprintedNumbers()
    ensures Encoding(16511) == [0xFF, 0x7F] && Encoding(65535) == [0x82, 0xFE, 0x7F]
    ensures Encoding(32895) == [0x80, 0xFF, 0x7F] && Encoding(65407) == [0x82, 0xFD, 0x7F]
  {
    hide Encode;
    TwoDigits(16511, 128, 127, true);
    ThreeDigits(65535, 3, 127, 127, true);
    ThreeDigits(32895, 1, 128, 127, true);
    ThreeDigits(65407, 3, 126, 127, true);
  }

  /** A negative number is written in one byte, as its low seven bits; it is read as a number from 0 to 127. */
  lemma NegativeNumbers(n: int)
    requires n < 0
    ensures exists d: Byte :: d < 128 && (n - d) % 128 == 0 && Written(n) == [d] && DecodeIn(WORD32, [d]) == Some((d, []))
  {
    var d: Byte := n % 128;
    assert (n - d) % 128 == 0;
    DecodeByte(d, []);
    assert [d] + [] == [d];
  }

  /** A 32-bit word is read as the number of type `int` that agrees with it modulo 2^32. */
  lemma SignedWords(n: nat)
    requires n < 0x1_0000_0000
    ensures -0x8000_0000 <= Signed32(n) < 0x8000_0000 && (Signed32(n) - n) % 0x1_0000_0000 == 0
  {
  }

  // ---------------------------------------------------------------- amounts

  /** An amount with `e` zeroes, fewer than nine, a last digit `d` before them and `m` before that. */
  lemma DocumentedAmounts(m: nat, d: nat, e: nat)
    requires 1 <= d <= 9 && e < 9
    ensures A.Compress((10 * m + d) * A.Pow10(e)) == 1 + 10 * (9 * m + d - 1) + e
  {
    hide A.Strip, A.Pow10, A.Code;
    var n := 10 * m + d;
    A.DivMod10(m, d);
    A.StripOfProduct(n, e, 9);
    A.CodeBound(n, e);
    assert A.Compress(n * A.Pow10(e)) == A.Code(n, e);
  }

  /** Of nine or more zeroes, nine are taken off. */
  lemma DocumentedLargeAmounts(m: nat)
    requires m > 0
    ensures A.Compress(0) == 0 && A.Compress(m * 1000000000) == 1 + 10 * (m - 1) + 9
  {
    hide A.Strip, A.Pow10, A.Code;
    A.StripOfProduct(m, 9, 9);
    A.CodeBound(m, 9);
    Pow10Nine();
  }

  lemma Pow10Nine()
    ensures A.Pow10(9) == 1000000000
  {
    assert A.Pow10(3) == 1000;
    assert A.Pow10(6) == 1000000;
  }

  // ---------------------------------------------------------------- scripts that cannot be restored

  /** A coordinate that no key has is read as the empty script; what follows it is left alone. */
  lemma UnknownKeys(k: Curve, parity: Byte, x: seq<Byte>, rest: Stream)
    requires |x| == 32 && (parity == 0 || parity == 1)
    ensures k.decompress([2 + parity] + x).None? ==> ReadScript(k, [4 + parity] + x + rest) == Some(([], rest))
  {
    var s := x + rest;
    DecodeByte(4 + parity, s);
    assert [4 + parity] + x + rest == [4 + parity] + s;
    assert s[..32] == x && s[32..] == rest;
  }

  // ---------------------------------------------------------------- the documented records

  /** The script that pays to a key hash. */
  function PayTo(hash: seq<Byte>): Script {
    [0x76, 0xa9, 20] + hash + [0x88, 0xac]
  }

  lemma OutBytes(k: Curve, value: nat, hash: seq<Byte>, code: nat)
    requires |hash| == 20 && value < WORD && A.Compress(value) == code < WORD
    ensures WriteOut(k, C.TxOut(value, PayTo(hash))) == Encoding(code) + [0] + hash
  {
    hide A.Compress, Encode, WriteScript;
    HashScripts(k, hash);
    Kept(value);
    Kept(code);
    assert Encoding(code) + ([0] + hash) == Encoding(code) + [0] + hash;
  }

  lemma Kept(n: nat)
    requires n < WORD
    ensures n % WORD == n && A.Wrap(n) == n && Unsigned(n) == n
  {
  }

  /** The first example: a record with its second output left, worth 600 coins, from block 203998. */
  lemma DocumentedRecord(k: Curve, hash: seq<Byte>)
    requires |hash| == 20
    ensures var c := C.Coins(false, [C.NullOut, C.TxOut(60000000000, PayTo(hash))], 203998, 1);
            && CC.Writable(c)
            && CC.Serialized(Codec(k), c) == [0x01, 0x04, 0x83, 0x58, 0x00] + hash + [0x8b, 0xb8, 0x5e]
  {
    hide Encode, WriteOut, A.Compress;
    var o := C.TxOut(60000000000, PayTo(hash));
    var c := C.Coins(false, [C.NullOut, o], 203998, 1);
    DocumentedLargeAmounts(60);
    OutBytes(k, 60000000000, hash, 600);
    TwoDigits(600, 4, 0x58, true);
    OneDigit(1, true);
    OneDigit(4, true);
    ThreeDigits(203998, 12, 57, 0x5e, true);
    assert CC.MaskRoom(c.vout) == 0 && CC.Mask(c.vout, 0) == [];
    assert CC.HeaderCode(c) == 4;
    assert CC.WriteOuts(Codec(k), c.vout[1..]) == WriteOut(k, o) + CC.WriteOuts(Codec(k), c.vout[1..][1..]);
    assert CC.WriteOuts(Codec(k), c.vout) == WriteOut(k, o);
  }

  function Nulls(n: nat): seq<C.TxOut> {
    seq(n, _ => C.NullOut)
  }

  lemma {:induction false} NullsWriteNothing(codec: CC.OutCodec, n: nat, rest: seq<C.TxOut>)
    ensures CC.WriteOuts(codec, Nulls(n) + rest) == CC.WriteOuts(codec, rest)
  {
    if n == 0 {
      assert Nulls(0) + rest == rest;
    } else {
      NullsWriteNothing(codec, n - 1, rest);
      assert (Nulls(n) + rest)[1..] == Nulls(n - 1) + rest;
    }
  }

  /** Seventeen outputs, of which the fifth and the last are left. */
  function Seventeen(o4: C.TxOut, o16: C.TxOut): (r: seq<C.TxOut>)
    ensures |r| == 17 && r[4] == o4 && r[16] == o16
    ensures forall i :: 0 <= i < 17 && i != 4 && i != 16 ==> r[i] == C.NullOut
  {
    Nulls(4) + [o4] + Nulls(11) + [o16]
  }

  lemma SeventeenOuts(codec: CC.OutCodec, o4: C.TxOut, o16: C.TxOut)
    requires !o4.IsNull() && !o16.IsNull()
    ensures CC.WriteOuts(codec, Seventeen(o4, o16)) == codec.write(o4) + codec.write(o16)
  {
    hide Nulls;
    var last := [o16];
    var rest := [o4] + (Nulls(11) + last);
    assert Seventeen(o4, o16) == Nulls(4) + rest;
    NullsWriteNothing(codec, 4, rest);
    assert rest[1..] == Nulls(11) + last;
    NullsWriteNothing(codec, 11, last);
    assert last[1..] == [];
    assert CC.WriteOuts(codec, last) == codec.write(o16) + CC.WriteOuts(codec, []);
  }

  lemma SeventeenMask(o4: C.TxOut, o16: C.TxOut)
    requires !o4.IsNull() && !o16.IsNull()
    ensures var vout := Seventeen(o4, o16);
            && CC.MaskCode(vout) == 2 && CC.MaskSize(vout) == 2 && CC.Mask(vout, 2) == [0x04, 0x40]
            && !CC.Available(vout, 0) && !CC.Available(vout, 1)
  {
    var vout := Seventeen(o4, o16);
    forall i | 0 <= i < 18 ensures CC.Available(vout, i) <==> i == 4 || i == 16 {
      assert i < 17 && i != 4 && i != 16 ==> vout[i] == C.NullOut;
    }
    assert forall i :: 0 <= i < 8 ==> (CC.MaskBits(vout, 0)[i] <==> i == 2);
    forall i | 0 <= i < 8 ensures CC.MaskBits(vout, 1)[i] <==> i == 6 {
      assert CC.MaskBits(vout, 1)[i] == CC.Available(vout, 10 + i);
    }
    OneBit(CC.MaskBits(vout, 0), 2);
    OneBit(CC.MaskBits(vout, 1), 6);
    assert Pow2(2) == 4 && Pow2(4) == 16 && Pow2(6) == 64;
    var m := CC.Mask(vout, 2);
    assert m == [0x04, 0x40];
    assert m[..1] == [0x04] && [0x04][..0] == [];
    assert CC.NonZero([0x04]) == 1;
    assert CC.MaskRoom(vout) == 2;
  }

  lemma {:induction false} OneBit(bits: seq<bool>, p: nat)
    requires p < |bits| && forall i :: 0 <= i < |bits| ==> (bits[i] <==> i == p)
    ensures CC.FromBits(bits) == Pow2(p)
    decreases p
  {
    if p == 0 {
      CC.FromBitsBound(bits[1..]);
    } else {
      OneBit(bits[1..], p - 1);
    }
  }

  lemma OddAmounts()
    ensures A.Compress(234925952) == 2114333561 && A.Compress(110397) == 993571
  {
    hide A.Compress;
    assert A.Pow10(0) == 1;
    DocumentedAmounts(23492595, 2, 0);
    DocumentedAmounts(11039, 7, 0);
  }

  lemma SecondNumbers()
    ensures Encoding(2114333561) == [0x86, 0xef, 0x97, 0xd5, 0x79]
    ensures Encoding(993571) == [0xbb, 0xd1, 0x23] && Encoding(120891) == [0x86, 0xaf, 0x3b]
    ensures Encoding(1) == [1] && Encoding(9) == [9]
  {
    hide Encode;
    Digit(2114333561, 16518230, 121, true);
    Digit(16518229, 129048, 85, false);
    ThreeDigits(129047, 7, 112, 23, false);
    ThreeDigits(993571, 60, 82, 35, true);
    ThreeDigits(120891, 7, 48, 59, true);
    OneDigit(1, true);
    OneDigit(9, true);
  }

  /** The second example: a coinbase of seventeen outputs with the fifth and the last left, from block 120891. */
  lemma DocumentedCoinbase(k: Curve, hash4: seq<Byte>, hash16: seq<Byte>)
    requires |hash4| == 20 && |hash16| == 20
    ensures var o4, o16 := C.TxOut(234925952, PayTo(hash4)), C.TxOut(110397, PayTo(hash16));
            var c := C.Coins(true, Seventeen(o4, o16), 120891, 1);
            && CC.Writable(c)
            && CC.Serialized(Codec(k), c) ==
                 [0x01, 0x09, 0x04, 0x40] + [0x86, 0xef, 0x97, 0xd5, 0x79, 0x00] + hash4 + [0xbb, 0xd1, 0x23, 0x00] + hash16 + [0x86, 0xaf, 0x3b]
  {
    hide Encode, WriteOut, A.Compress, Seventeen, CC.MaskCode, CC.MaskSize, CC.Mask, CC.WriteOuts, CC.Available, PayTo;
    var o4, o16 := C.TxOut(234925952, PayTo(hash4)), C.TxOut(110397, PayTo(hash16));
    SeventeenMask(o4, o16);
    SeventeenOuts(Codec(k), o4, o16);
    OddAmounts();
    OutBytes(k, 234925952, hash4, 2114333561);
    OutBytes(k, 110397, hash16, 993571);
    SecondNumbers();
  }
}
