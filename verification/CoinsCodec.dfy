/**
 * The compact encoding of a coin record (`CCoins::Serialize`, `Unserialize`, `GetSerializeSize`,
 * `CalcMaskSize`; src/coins.h, src/coins.cpp). Outputs are written by an arbitrary invertible codec.
 */
module CoinsCodec {
  import opened Common
  import C = Coins
  import P = Positional
  import opened VarInt

  type Stream = seq<Byte>
  type TxOut = C.TxOut

  /** How a single output is written and read (`CTxOutCompressor`). */
  datatype OutCodec = OutCodec(write: TxOut -> Stream, read: Stream -> Option<(TxOut, Stream)>)

  /** Every unspent output of `vout` is read back from what was written, and nothing after it is touched. */
  ghost predicate Invertible(codec: OutCodec, vout: seq<TxOut>) {
    forall i, rest: Stream {:trigger codec.read(codec.write(vout[i]) + rest)} ::
      0 <= i < |vout| && !vout[i].IsNull() ==> codec.read(codec.write(vout[i]) + rest) == Some((vout[i], rest))
  }

  // ---------------------------------------------------------------- bytes of bits

  /** Eight or fewer bits as a byte, least significant bit first. */
  function FromBits(bits: seq<bool>): (r: nat)
  {
    if bits == [] then 0 else (if bits[0] then 1 else 0) + 2 * FromBits(bits[1..])
  }

  lemma {:induction false} FromBitsBound(bits: seq<bool>)
    ensures FromBits(bits) < Pow2(|bits|)
    ensures FromBits(bits) == 0 <==> forall i :: 0 <= i < |bits| ==> !bits[i]
    decreases |bits|
  {
    if bits != [] {
      FromBitsBound(bits[1..]);
      assert forall i :: 1 <= i < |bits| ==> bits[i] == bits[1..][i - 1];
      assert FromBits(bits) == 0 ==> forall i :: 0 <= i < |bits| ==> !bits[i];
    }
  }

  lemma {:induction false} FromBitsSnoc(bits: seq<bool>, b: bool)
    ensures FromBits(bits + [b]) == FromBits(bits) + if b then Pow2(|bits|) else 0
    decreases |bits|
  {
    if bits == [] {
      assert bits + [b] == [b] && [b][1..] == [];
    } else {
      assert (bits + [b])[1..] == bits[1..] + [b];
      FromBitsSnoc(bits[1..], b);
    }
  }

  /** `(x & (1 << p)) != 0`. */
  predicate BitOf(x: nat, p: nat) {
    if p == 0 then x % 2 == 1 else BitOf(x / 2, p - 1)
  }

  lemma {:induction false} BitOfFromBits(bits: seq<bool>, p: nat)
    requires p < |bits|
    ensures BitOf(FromBits(bits), p) <==> bits[p]
    decreases p
  {
    if p > 0 {
      assert FromBits(bits) / 2 == FromBits(bits[1..]);
      BitOfFromBits(bits[1..], p - 1);
    }
  }

  function ToBits(x: Byte): (r: seq<bool>)
    ensures |r| == 8
  {
    [BitOf(x, 0), BitOf(x, 1), BitOf(x, 2), BitOf(x, 3), BitOf(x, 4), BitOf(x, 5), BitOf(x, 6), BitOf(x, 7)]
  }

  // ---------------------------------------------------------------- the mask

  predicate Available(vout: seq<TxOut>, i: nat) {
    i < |vout| && !vout[i].IsNull()
  }

  /** The availabilities that mask byte `b` stands for; the first two outputs are not in the mask. */
  function MaskBits(vout: seq<TxOut>, b: nat): (r: seq<bool>)
    ensures |r| == 8
  {
    seq(8, i requires 0 <= i < 8 => Available(vout, 2 + b * 8 + i))
  }

  function MaskByte(vout: seq<TxOut>, b: nat): (r: Byte) {
    FromBitsBound(MaskBits(vout, b));
    assert Pow2(8) == 256 by { assert Pow2(4) == 16; }
    FromBits(MaskBits(vout, b))
  }

  /** The first `n` mask bytes. */
  function Mask(vout: seq<TxOut>, n: nat): (r: seq<Byte>)
    ensures |r| == n
  {
    seq(n, b requires 0 <= b < n => MaskByte(vout, b))
  }

  function NonZero(m: seq<Byte>): (r: nat)
    ensures r <= |m|
  {
    if m == [] then 0 else NonZero(m[..|m| - 1]) + if m[|m| - 1] != 0 then 1 else 0
  }

  /** Number of mask bytes up to the last non-zero one, among the first `n`. */
  function LastUsed(vout: seq<TxOut>, n: nat): (r: nat)
    ensures r <= n
  {
    if n == 0 then 0 else if MaskByte(vout, n - 1) != 0 then n else LastUsed(vout, n - 1)
  }

  /** Mask bytes needed to cover all outputs. */
  function MaskRoom(vout: seq<TxOut>): nat {
    if |vout| <= 2 then 0 else (|vout| - 2 + 7) / 8
  }

  function MaskSize(vout: seq<TxOut>): nat {
    LastUsed(vout, MaskRoom(vout))
  }

  function MaskCode(vout: seq<TxOut>): nat {
    NonZero(Mask(vout, MaskRoom(vout)))
  }

  lemma {:induction false} LastUsedMask(vout: seq<TxOut>, n: nat)
    ensures NonZero(Mask(vout, LastUsed(vout, n))) == NonZero(Mask(vout, n))
    ensures LastUsed(vout, n) > 0 ==> MaskByte(vout, LastUsed(vout, n) - 1) != 0
    ensures forall b :: LastUsed(vout, n) <= b < n ==> MaskByte(vout, b) == 0
  {
    hide MaskByte;
    if n > 0 {
      LastUsedMask(vout, n - 1);
      assert Mask(vout, n)[..n - 1] == Mask(vout, n - 1);
    }
  }

  /** Every available output from the third on is covered by the mask bytes that are written. */
  lemma MaskCovers(vout: seq<TxOut>, i: nat)
    requires Available(vout, i)
    ensures i < 2 + 8 * MaskSize(vout)
  {
    hide MaskByte;
    if i >= 2 {
      var b, p := (i - 2) / 8, (i - 2) % 8;
      LastUsedMask(vout, MaskRoom(vout));
      assert b < MaskRoom(vout);
      assert MaskBits(vout, b)[p];
      MaskByteZero(vout, b);
    }
  }

  lemma MaskByteZero(vout: seq<TxOut>, b: nat)
    ensures MaskByte(vout, b) == 0 <==> forall p :: 0 <= p < 8 ==> !MaskBits(vout, b)[p]
  {
    FromBitsBound(MaskBits(vout, b));
  }

  // ---------------------------------------------------------------- writing

  predicate First(c: C.Coins) { Available(c.vout, 0) }
  predicate Second(c: C.Coins) { Available(c.vout, 1) }

  /** The condition the source asserts before it writes a record. */
  predicate Writable(c: C.Coins) {
    First(c) || Second(c) || MaskCode(c.vout) > 0
  }

  /** The header code, which is kept in 32 bits: number of non-zero mask bytes, the flags of the first two outputs, and the coinbase flag. */
  function HeaderCode(c: C.Coins): nat
    requires Writable(c)
  {
    8 * (MaskCode(c.vout) - (if First(c) || Second(c) then 0 else 1))
    + (if c.coinBase then 1 else 0) + (if First(c) then 2 else 0) + (if Second(c) then 4 else 0)
  }

  function WriteOuts(codec: OutCodec, vout: seq<TxOut>): Stream {
    if vout == [] then []
    else (if vout[0].IsNull() then [] else codec.write(vout[0])) + WriteOuts(codec, vout[1..])
  }

  function Serialized(codec: OutCodec, c: C.Coins): Stream
    requires Writable(c)
  {
    Written(c.version) + Encoding(HeaderCode(c) % WORD32) + Mask(c.vout, MaskSize(c.vout)) + WriteOuts(codec, c.vout) + Written(c.height)
  }

  // ---------------------------------------------------------------- reading

  /** Read mask bytes until `count` of them were non-zero. */
  function ReadMask(count: nat, s: Stream): Option<(seq<Byte>, Stream)>
    decreases |s|
  {
    if count == 0 then Some(([], s))
    else if s == [] then None
    else
      match ReadMask(count - (if s[0] != 0 then 1 else 0), s[1..])
      case None => None
      case Some((m, rest)) => Some(([s[0]] + m, rest))
  }

  /** The reader stops after exactly the bytes that were written: they end in a non-zero one. */
  lemma {:induction false} ReadMaskStops(m: seq<Byte>, rest: Stream)
    requires m == [] || m[|m| - 1] != 0
    ensures ReadMask(NonZero(m), m + rest) == Some((m, rest))
    decreases |m|
  {
    if m == [] {
      assert m + rest == rest;
    } else {
      NonZeroCons(m);
      assert (m + rest)[1..] == m[1..] + rest;
      assert NonZero(m) > 0;
      if |m| == 1 {
        assert m[1..] == [] && [m[0]] + [] == m;
        assert ReadMask(0, rest) == Some(([], rest));
        assert m[1..] + rest == rest;
      } else {
        ReadMaskStops(m[1..], rest);
        assert [m[0]] + m[1..] == m;
      }
    }
  }

  lemma {:induction false} NonZeroCons(m: seq<Byte>)
    requires m != []
    ensures NonZero(m) == (if m[0] != 0 then 1 else 0) + NonZero(m[1..])
    decreases |m|
  {
    if |m| > 1 {
      NonZeroCons(m[..|m| - 1]);
      assert m[..|m| - 1][1..] == m[1..][..|m| - 2];
    }
  }

  function AllBits(m: seq<Byte>): (r: seq<bool>)
    ensures |r| == 8 * |m|
  {
    if m == [] then [] else ToBits(m[0]) + AllBits(m[1..])
  }

  /** Read one output per set flag; the others stay null. */
  function ReadOuts(codec: OutCodec, avail: seq<bool>, s: Stream): Option<(seq<TxOut>, Stream)>
    decreases |avail|
  {
    if avail == [] then Some(([], s))
    else
      var first := if avail[0] then codec.read(s) else Some((C.NullOut, s));
      match first
      case None => None
      case Some((o, s1)) =>
        match ReadOuts(codec, avail[1..], s1)
        case None => None
        case Some((os, rest)) => Some(([o] + os, rest))
  }

  function Unserialized(codec: OutCodec, s: Stream): Option<(C.Coins, Stream)> {
    match DecodeIn(WORD32, s)
    case None => None
    case Some((version, s1)) =>
      match DecodeIn(WORD32, s1)
      case None => None
      case Some((code, s2)) =>
        var count := code / 8 + if code / 2 % 4 != 0 then 0 else 1;
        match ReadMask(count, s2)
        case None => None
        case Some((m, s3)) =>
          match ReadOuts(codec, [code / 2 % 2 == 1, code / 4 % 2 == 1] + AllBits(m), s3)
          case None => None
          case Some((vout, s4)) =>
            match DecodeIn(WORD32, s4)
            case None => None
            case Some((height, rest)) => Some((C.Coins(code % 2 == 1, vout, Signed32(height), Signed32(version)).Cleanup(), rest))
  }

  // ---------------------------------------------------------------- the round trip

  lemma {:induction false} AllBitsAt(m: seq<Byte>, b: nat, p: nat)
    requires b < |m| && p < 8
    ensures AllBits(m)[8 * b + p] <==> BitOf(m[b], p)
    decreases b
  {
    if b > 0 {
      AllBitsAt(m[1..], b - 1, p);
    }
  }

  /** The flags recovered from the mask are the availabilities of the outputs. */
  lemma FlagsRecovered(vout: seq<TxOut>, n: nat, i: nat)
    requires 2 <= i < 2 + 8 * n
    ensures AllBits(Mask(vout, n))[i - 2] <==> Available(vout, i)
  {
    var b, p := (i - 2) / 8, (i - 2) % 8;
    AllBitsAt(Mask(vout, n), b, p);
    BitOfFromBits(MaskBits(vout, b), p);
  }

  /** `avail` are the availabilities of `vout`, with false from its end on. */
  predicate Flags(vout: seq<TxOut>, avail: seq<bool>) {
    && (forall i :: 0 <= i < |avail| ==> (avail[i] <==> Available(vout, i)))
    && (forall i :: |avail| <= i < |vout| ==> vout[i].IsNull())
  }

  /** The output vector cut or padded with nulls to a given length. */
  function Fitted(vout: seq<TxOut>, n: nat): (r: seq<TxOut>)
    ensures |r| == n
  {
    seq(n, i requires 0 <= i < n => if Available(vout, i) then vout[i] else C.NullOut)
  }

  function Tail(vout: seq<TxOut>): seq<TxOut> {
    if vout == [] then [] else vout[1..]
  }

  lemma {:induction false} WriteCons(codec: OutCodec, vout: seq<TxOut>, rest: Stream)
    ensures var w := WriteOuts(codec, Tail(vout)) + rest;
            WriteOuts(codec, vout) + rest == if Available(vout, 0) then codec.write(vout[0]) + w else w
  {
    if Available(vout, 0) {
      var a, b := codec.write(vout[0]), WriteOuts(codec, vout[1..]);
      assert WriteOuts(codec, vout) == a + b;
      assert (a + b) + rest == a + (b + rest);
    } else if vout != [] {
      assert WriteOuts(codec, vout) == [] + WriteOuts(codec, vout[1..]) == WriteOuts(codec, vout[1..]);
    }
  }

  lemma {:induction false} ReadCons(codec: OutCodec, avail: seq<bool>, s: Stream, o: TxOut, s1: Stream, more: seq<TxOut>, rest: Stream)
    requires avail != [] && (if avail[0] then codec.read(s) == Some((o, s1)) else o == C.NullOut && s1 == s)
    requires ReadOuts(codec, avail[1..], s1) == Some((more, rest))
    ensures ReadOuts(codec, avail, s) == Some(([o] + more, rest))
  {
  }

  /** One output, written if it is unspent, is read back if its flag is set. */
  lemma {:induction false} ReadWriteOne(codec: OutCodec, vout: seq<TxOut>, avail: seq<bool>, more: seq<TxOut>, rest: Stream)
    requires Invertible(codec, vout) && avail != [] && (avail[0] <==> Available(vout, 0))
    requires ReadOuts(codec, avail[1..], WriteOuts(codec, Tail(vout)) + rest) == Some((more, rest))
    ensures ReadOuts(codec, avail, WriteOuts(codec, vout) + rest) ==
      Some(([if Available(vout, 0) then vout[0] else C.NullOut] + more, rest))
  {
    hide ReadOuts, WriteOuts;
    var w := WriteOuts(codec, Tail(vout)) + rest;
    WriteCons(codec, vout, rest);
    if Available(vout, 0) {
      assert codec.read(codec.write(vout[0]) + w) == Some((vout[0], w));
      ReadCons(codec, avail, codec.write(vout[0]) + w, vout[0], w, more, rest);
    } else {
      ReadCons(codec, avail, w, C.NullOut, w, more, rest);
    }
  }

  lemma FittedCons(vout: seq<TxOut>, n: nat)
    requires n > 0
    ensures Fitted(vout, n) == [if Available(vout, 0) then vout[0] else C.NullOut] + Fitted(Tail(vout), n - 1)
  {
  }

  lemma {:induction false} ReadWriteOuts(codec: OutCodec, vout: seq<TxOut>, avail: seq<bool>, rest: Stream)
    requires Invertible(codec, vout) && Flags(vout, avail)
    ensures ReadOuts(codec, avail, WriteOuts(codec, vout) + rest) == Some((Fitted(vout, |avail|), rest))
    decreases |avail|
  {
    hide Flags, Fitted;
    if avail == [] {
      FlagsEnd(vout);
      NothingWritten(codec, vout);
      assert WriteOuts(codec, vout) + rest == rest;
      assert Fitted(vout, 0) == [];
    } else {
      FlagsTail(vout, avail);
      InvertibleTail(codec, vout);
      hide ReadOuts, WriteOuts, Invertible, Available;
      ReadWriteOuts(codec, Tail(vout), avail[1..], rest);
      ReadWriteOne(codec, vout, avail, Fitted(Tail(vout), |avail| - 1), rest);
      FittedCons(vout, |avail|);
    }
  }

  lemma InvertibleTail(codec: OutCodec, vout: seq<TxOut>)
    requires Invertible(codec, vout)
    ensures Invertible(codec, Tail(vout))
  {
    forall i | 0 <= i < |Tail(vout)| ensures Tail(vout)[i] == vout[i + 1] {
    }
  }

  lemma FlagsEnd(vout: seq<TxOut>)
    ensures Flags(vout, []) ==> forall i :: 0 <= i < |vout| ==> vout[i].IsNull()
  {
  }

  lemma FlagsTail(vout: seq<TxOut>, avail: seq<bool>)
    requires Flags(vout, avail) && avail != []
    ensures Flags(Tail(vout), avail[1..])
    ensures avail[0] <==> Available(vout, 0)
  {
    var tail := Tail(vout);
    forall i | 0 <= i < |avail[1..]| ensures avail[1..][i] <==> Available(tail, i) {
      assert avail[i + 1] <==> Available(vout, i + 1);
    }
  }

  lemma {:induction false} NothingWritten(codec: OutCodec, vout: seq<TxOut>)
    requires forall i :: 0 <= i < |vout| ==> vout[i].IsNull()
    ensures WriteOuts(codec, vout) == []
    decreases |vout|
  {
    if vout != [] {
      NothingWritten(codec, vout[1..]);
    }
  }

  lemma MaskNonZero(vout: seq<TxOut>, n: nat, b: nat)
    requires b < n && MaskByte(vout, b) != 0
    ensures NonZero(Mask(vout, n)) > 0
    decreases n
  {
    hide MaskByte;
    assert Mask(vout, n)[..n - 1] == Mask(vout, n - 1);
    if b < n - 1 {
      MaskNonZero(vout, n - 1, b);
    }
  }

  lemma {:induction false} AllZero(m: seq<Byte>)
    requires forall b :: 0 <= b < |m| ==> m[b] == 0
    ensures NonZero(m) == 0
    decreases |m|
  {
    if m != [] {
      AllZero(m[..|m| - 1]);
    }
  }

  lemma NothingInMask(c: C.Coins)
    requires c.IsPruned()
    ensures MaskCode(c.vout) == 0
  {
    hide MaskByte;
    forall b: nat ensures MaskByte(c.vout, b) == 0 {
      assert forall p :: 0 <= p < 8 ==> MaskBits(c.vout, b)[p] == Available(c.vout, 2 + b * 8 + p);
      MaskByteZero(c.vout, b);
    }
    AllZero(Mask(c.vout, MaskRoom(c.vout)));
  }

  /** The assertion before writing holds exactly for records that still have an unspent output. */
  lemma WritableExactly(c: C.Coins)
    ensures Writable(c) <==> !c.IsPruned()
  {
    hide MaskByte, MaskSize, MaskCode;
    if c.IsPruned() {
      NothingInMask(c);
    } else {
      var i: nat :| i < |c.vout| && !c.vout[i].IsNull();
      if i >= 2 {
        InMask(c.vout, i);
      }
    }
  }

  lemma InMask(vout: seq<TxOut>, i: nat)
    requires i >= 2 && Available(vout, i)
    ensures MaskCode(vout) > 0
  {
    hide MaskByte;
    MaskCovers(vout, i);
    LastUsedMask(vout, MaskRoom(vout));
    MaskNonZero(vout, MaskRoom(vout), MaskSize(vout) - 1);
  }

  /** What survives the trip: spent outputs are reset, those at the end dropped, numbers read back. */
  function Normal(c: C.Coins): C.Coins {
    C.Coins(c.coinBase, C.Trimmed(Fitted(c.vout, |c.vout|)), ReadBack(c.height), ReadBack(c.version))
  }

  /** The flags the reader reconstructs. */
  function ReadFlags(c: C.Coins): seq<bool> {
    [First(c), Second(c)] + AllBits(Mask(c.vout, MaskSize(c.vout)))
  }

  lemma ReadFlagsRight(c: C.Coins)
    ensures Flags(c.vout, ReadFlags(c))
  {
    hide Mask, MaskSize, MaskByte, AllBits;
    var avail := ReadFlags(c);
    var n := MaskSize(c.vout);
    forall i | 0 <= i < |avail| ensures avail[i] <==> Available(c.vout, i) {
      if i >= 2 {
        FlagsRecovered(c.vout, n, i);
      }
    }
    forall i | |avail| <= i < |c.vout| ensures c.vout[i].IsNull() {
      if !c.vout[i].IsNull() {
        MaskCovers(c.vout, i);
      }
    }
  }

  /** Trimming a vector fitted to any length that reaches the last unspent output gives the same. */
  lemma FittedTrim(vout: seq<TxOut>, n: nat)
    requires forall i :: n <= i < |vout| ==> vout[i].IsNull()
    ensures C.Trimmed(Fitted(vout, n)) == C.Trimmed(Fitted(vout, |vout|))
  {
    var base := C.Trimmed(Fitted(vout, |vout|));
    C.TrimmedKeepsAvailable(Fitted(vout, |vout|));
    assert |base| <= n by {
      assert base != [] ==> !Fitted(vout, |vout|)[|base| - 1].IsNull();
    }
    var nulls := seq(n - |base|, i => C.NullOut);
    forall i | 0 <= i < n ensures Fitted(vout, n)[i] == (base + nulls)[i] {
      if i < |vout| {
        assert Fitted(vout, n)[i] == Fitted(vout, |vout|)[i];
      }
    }
    assert Fitted(vout, n) == base + nulls;
    C.TrimmedOfPadded(base, nulls);
  }

  lemma BitFields(k: nat, a: nat, b: nat, c: nat)
    requires a < 2 && b < 2 && c < 2
    ensures var n := 8 * k + a + 2 * b + 4 * c;
            && n % 2 == a && n / 2 % 2 == b && n / 4 % 2 == c && n / 8 == k && n / 2 % 4 == b + 2 * c
  {
    P.DivMod(4 * k + b + 2 * c, a, 2);
    P.DivMod(2 * k + c, b, 2);
    P.DivMod(2 * k + c, a + 2 * b, 4);
    P.DivMod(k, b + 2 * c, 4);
    P.DivMod(k, c, 2);
    P.DivMod(k, a + 2 * b + 4 * c, 8);
  }

  lemma HeaderParts(c: C.Coins)
    requires Writable(c)
    ensures var code := HeaderCode(c);
            && (code % 2 == 1 <==> c.coinBase)
            && (code / 2 % 2 == 1 <==> First(c))
            && (code / 4 % 2 == 1 <==> Second(c))
            && code / 8 + (if code / 2 % 4 != 0 then 0 else 1) == MaskCode(c.vout)
  {
    hide MaskCode;
    BitFields(MaskCode(c.vout) - (if First(c) || Second(c) then 0 else 1),
              if c.coinBase then 1 else 0, if First(c) then 1 else 0, if Second(c) then 1 else 0);
  }

  /** The stream behind the two header numbers is taken apart into the record's outputs. */
  lemma BodyReadBack(codec: OutCodec, c: C.Coins, rest: Stream)
    requires Invertible(codec, c.vout)
    ensures ReadMask(MaskCode(c.vout), Mask(c.vout, MaskSize(c.vout)) + rest)
         == Some((Mask(c.vout, MaskSize(c.vout)), rest))
    ensures ReadOuts(codec, ReadFlags(c), WriteOuts(codec, c.vout) + rest)
         == Some((Fitted(c.vout, |ReadFlags(c)|), rest))
    ensures C.Trimmed(Fitted(c.vout, |ReadFlags(c)|)) == C.Trimmed(Fitted(c.vout, |c.vout|))
  {
    hide MaskByte, ReadMask, ReadOuts, AllBits, NonZero, LastUsed, C.Trimmed;
    LastUsedMask(c.vout, MaskRoom(c.vout));
    ReadMaskStops(Mask(c.vout, MaskSize(c.vout)), rest);
    ReadFlagsRight(c);
    ReadWriteOuts(codec, c.vout, ReadFlags(c), rest);
    FittedTrim(c.vout, |ReadFlags(c)|);
  }

  /** The two numbers are of type `int`, and the outputs can be counted in 32 bits. */
  predicate Representable(c: C.Coins) {
    IsInt32(c.version) && IsInt32(c.height) && |c.vout| < WORD32 - 16
  }

  lemma HeaderFits(c: C.Coins)
    requires Writable(c) && Representable(c)
    ensures HeaderCode(c) % WORD32 == HeaderCode(c)
  {
    assert MaskCode(c.vout) <= MaskRoom(c.vout);
  }

  lemma NumberBack(n: int, rest: Stream)
    requires IsInt32(n)
    ensures DecodeIn(WORD32, Written(n) + rest) == Some((ReadBack(n), rest)) && Signed32(ReadBack(n)) == ReadBack(n)
  {
    hide Decode, Encode;
    DecodeInEncode(WORD32, ReadBack(n), rest);
  }

  /** A record read back from what was written, up to the spent outputs and the sign of the two numbers. */
  lemma UnserializeSerialize(codec: OutCodec, c: C.Coins, rest: Stream)
    requires Invertible(codec, c.vout) && Writable(c) && Representable(c)
    ensures Unserialized(codec, Serialized(codec, c) + rest) == Some((Normal(c), rest))
  {
    hide DecodeIn, Encode, Written, Signed32, MaskByte, Mask, ReadMask, ReadOuts, WriteOuts, AllBits, MaskCode, MaskSize, HeaderCode, C.Trimmed, Fitted;
    HeaderFits(c);
    var mask := Mask(c.vout, MaskSize(c.vout));
    var code := HeaderCode(c);
    var s4 := Written(c.height) + rest;
    var s3 := WriteOuts(codec, c.vout) + s4;
    var s2 := mask + s3;
    var s1 := Encoding(code) + s2;
    assert Serialized(codec, c) + rest == Written(c.version) + s1;
    NumberBack(c.version, s1);
    DecodeInEncode(WORD32, code, s2);
    NumberBack(c.height, rest);
    HeaderParts(c);
    BodyReadBack(codec, c, s3);
    BodyReadBack(codec, c, s4);
    assert ReadFlags(c) == [code / 2 % 2 == 1, code / 4 % 2 == 1] + AllBits(mask);
  }

  /** A record survives unchanged exactly when it is clean, its spent outputs are reset and no number is negative. */
  lemma RoundTripExactly(codec: OutCodec, c: C.Coins, rest: Stream)
    requires Invertible(codec, c.vout) && Writable(c) && Representable(c)
    ensures Unserialized(codec, Serialized(codec, c) + rest) == Some((c, rest)) <==>
            && c.Cleaned() && c.version >= 0 && c.height >= 0
            && forall i :: 0 <= i < |c.vout| && c.vout[i].IsNull() ==> c.vout[i] == C.NullOut
  {
    hide Unserialized, Serialized;
    UnserializeSerialize(codec, c, rest);
    C.TrimmedKeepsAvailable(Fitted(c.vout, |c.vout|));
    assert (forall i :: 0 <= i < |c.vout| && c.vout[i].IsNull() ==> c.vout[i] == C.NullOut) <==> Fitted(c.vout, |c.vout|) == c.vout;
  }

  // ---------------------------------------------------------------- the code

  lemma MaskRoomBound(vout: seq<TxOut>, b: nat)
    ensures 2 + b * 8 < |vout| <==> b < MaskRoom(vout)
  {
  }

  /** Are the outputs behind mask byte `b` all spent? */
  method ByteIsZero(vout: seq<TxOut>, b: nat) returns (fZero: bool)
    ensures fZero <==> MaskByte(vout, b) == 0
  {
    hide MaskByte;
    fZero := true;
    var i := 0;
    while i < 8 && 2 + b * 8 + i < |vout|
      invariant 0 <= i <= 8
      invariant fZero <==> forall p :: 0 <= p < i ==> !MaskBits(vout, b)[p]
    {
      if !vout[2 + b * 8 + i].IsNull() {
        assert MaskBits(vout, b)[i];
        fZero := false;
      }
      i := i + 1;
    }
    forall p | i <= p < 8 ensures !MaskBits(vout, b)[p] {
      assert MaskBits(vout, b)[p] == Available(vout, 2 + b * 8 + p);
    }
    MaskByteZero(vout, b);
  }

  /** `CCoins::CalcMaskSize`. */
  method CalcMaskSize(vout: seq<TxOut>) returns (nBytes: nat, nNonzeroBytes: nat)
    ensures nBytes == MaskSize(vout) && nNonzeroBytes == MaskCode(vout)
  {
    hide MaskByte;
    var nLastUsedByte := 0;
    nNonzeroBytes := 0;
    var b := 0;
    while 2 + b * 8 < |vout|
      invariant b <= MaskRoom(vout)
      invariant nLastUsedByte == LastUsed(vout, b)
      invariant nNonzeroBytes == NonZero(Mask(vout, b))
      decreases MaskRoom(vout) - b
    {
      MaskRoomBound(vout, b);
      assert Mask(vout, b + 1)[..b] == Mask(vout, b);
      var fZero := ByteIsZero(vout, b);
      if !fZero {
        nLastUsedByte := b + 1;
        nNonzeroBytes := nNonzeroBytes + 1;
      }
      b := b + 1;
    }
    MaskRoomBound(vout, b);
    nBytes := nLastUsedByte;
  }

  /** One mask byte, set bit by bit. */
  method BuildMaskByte(vout: seq<TxOut>, b: nat) returns (chAvail: Byte)
    ensures chAvail == MaskByte(vout, b)
  {
    hide FromBits;
    var acc: nat := 0;
    var bits := MaskBits(vout, b);
    var i, bit := 0, 1;
    assert FromBits([]) == 0 by { FromBitsBound([]); }
    assert bits[..0] == [];
    while i < 8
      invariant 0 <= i <= 8 && bit == Pow2(i)
      invariant acc == FromBits(bits[..i])
    {
      assert bits[..i + 1] == bits[..i] + [bits[i]];
      FromBitsSnoc(bits[..i], bits[i]);
      assert Pow2(i + 1) == 2 * Pow2(i);
      assert bits[i] == Available(vout, 2 + b * 8 + i);
      if 2 + b * 8 + i < |vout| && !vout[2 + b * 8 + i].IsNull() {
        acc := acc + bit;
      }
      i, bit := i + 1, 2 * bit;
    }
    assert bits[..8] == bits;
    FromBitsBound(bits);
    assert Pow2(8) == 256 by { assert Pow2(4) == 16; }
    chAvail := acc;
  }

  method WriteOutputs(codec: OutCodec, s: Stream, vout: seq<TxOut>) returns (out: Stream)
    ensures out == s + WriteOuts(codec, vout)
  {
    out := s;
    var i := 0;
    while i < |vout|
      invariant 0 <= i <= |vout|
      invariant out + WriteOuts(codec, vout[i..]) == s + WriteOuts(codec, vout)
    {
      assert vout[i..][1..] == vout[i + 1..];
      if !vout[i].IsNull() {
        out := out + codec.write(vout[i]);
      }
      i := i + 1;
    }
  }

  method WriteMask(s: Stream, vout: seq<TxOut>, nMaskSize: nat) returns (out: Stream)
    ensures out == s + Mask(vout, nMaskSize)
  {
    hide MaskByte;
    out := s;
    for b := 0 to nMaskSize
      invariant out == s + Mask(vout, b)
    {
      var chAvail := BuildMaskByte(vout, b);
      assert Mask(vout, b + 1) == Mask(vout, b) + [chAvail];
      out := out + [chAvail];
    }
  }

  lemma WrittenCode(n: nat)
    ensures Written(n) == Encoding(n)
  {
  }

  lemma Pow2Of32()
    ensures Pow2(32) == WORD32
  {
    assert Pow2(8) == 0x100;
    assert Pow2(16) == 0x1_0000;
    assert Pow2(24) == 0x100_0000;
  }

  /** `CCoins::Serialize`; it may only be called for a record that still has an unspent output. */
  method Serialize(codec: OutCodec, s: Stream, c: C.Coins) returns (out: Stream)
    requires !c.IsPruned() && IsInt32(c.version) && IsInt32(c.height)
    ensures Writable(c) && out == s + Serialized(codec, c)
  {
    hide MaskByte, MaskSize, MaskCode, Mask, WriteOuts, Encode, Written, Pow2;
    var nMaskSize, nMaskCode := CalcMaskSize(c.vout);
    var fFirst := |c.vout| > 0 && !c.vout[0].IsNull();
    var fSecond := |c.vout| > 1 && !c.vout[1].IsNull();
    WritableExactly(c);
    assert fFirst || fSecond || nMaskCode > 0;
    var nCode := 8 * (nMaskCode - (if fFirst || fSecond then 0 else 1))
                 + (if c.coinBase then 1 else 0) + (if fFirst then 2 else 0) + (if fSecond then 4 else 0);
    Pow2Of32();
    out := WriteVarInt(s, c.version, 32);
    assert Written(nCode % WORD32) == Encoding(nCode % WORD32) by { WrittenCode(nCode % WORD32); }
    out := WriteVarInt(out, nCode % WORD32, 32);
    out := WriteMask(out, c.vout, nMaskSize);
    out := WriteOutputs(codec, out, c.vout);
    out := WriteVarInt(out, c.height, 32);
  }

  /** `CCoins::GetSerializeSize`: the number of bytes that will be written. */
  method GetSerializeSize(codec: OutCodec, c: C.Coins) returns (nSize: nat)
    requires !c.IsPruned()
    ensures Writable(c) && nSize == |Serialized(codec, c)|
  {
    hide MaskByte, MaskSize, MaskCode, Mask, Encode;
    var nMaskSize, nMaskCode := CalcMaskSize(c.vout);
    var fFirst := |c.vout| > 0 && !c.vout[0].IsNull();
    var fSecond := |c.vout| > 1 && !c.vout[1].IsNull();
    WritableExactly(c);
    var nCode := 8 * (nMaskCode - (if fFirst || fSecond then 0 else 1))
                 + (if c.coinBase then 1 else 0) + (if fFirst then 2 else 0) + (if fSecond then 4 else 0);
    var n := GetSizeOfVarInt(c.version);
    nSize := n;
    n := GetSizeOfVarInt(nCode % WORD32);
    nSize := nSize + n + nMaskSize;
    var before := nSize;
    var i := 0;
    while i < |c.vout|
      invariant 0 <= i <= |c.vout|
      invariant nSize + |WriteOuts(codec, c.vout[i..])| == before + |WriteOuts(codec, c.vout)|
    {
      assert c.vout[i..][1..] == c.vout[i + 1..];
      if !c.vout[i].IsNull() {
        nSize := nSize + |codec.write(c.vout[i])|;
      }
      i := i + 1;
    }
    n := GetSizeOfVarInt(c.height);
    nSize := nSize + n;
  }

  lemma {:induction false} AllBitsSnoc(m: seq<Byte>, x: Byte)
    ensures AllBits(m + [x]) == AllBits(m) + ToBits(x)
    decreases |m|
  {
    if m == [] {
      assert m + [x] == [x] && [x][1..] == [];
    } else {
      assert (m + [x])[1..] == m[1..] + [x];
      AllBitsSnoc(m[1..], x);
    }
  }

  /** A result read in two parts. */
  function Prefixed<T>(front: seq<T>, r: Option<(seq<T>, Stream)>): Option<(seq<T>, Stream)> {
    if r.None? then None else Some((front + r.value.0, r.value.1))
  }

  lemma PrefixedSnoc<T>(front: seq<T>, x: T, r: Option<(seq<T>, Stream)>)
    ensures Prefixed(front, Prefixed([x], r)) == Prefixed(front + [x], r)
    ensures Prefixed([], r) == r
  {
    if r.Some? {
      assert front + ([x] + r.value.0) == front + [x] + r.value.0;
      assert [] + r.value.0 == r.value.0;
    }
  }

  /** Read mask bytes and push eight flags for each. */
  method ReadMaskFlags(s0: Stream, count: nat, head: seq<bool>) returns (r: Option<(seq<bool>, Stream)>)
    ensures r == match ReadMask(count, s0)
                 case None => None
                 case Some((m, rest)) => Some((head + AllBits(m), rest))
  {
    hide ToBits;
    var s, vAvail, nMaskCode := s0, head, count;
    ghost var done: seq<Byte> := [];
    PrefixedSnoc(done, 0, ReadMask(count, s0));
    while nMaskCode > 0
      invariant vAvail == head + AllBits(done)
      invariant ReadMask(count, s0) == Prefixed(done, ReadMask(nMaskCode, s))
      decreases |s|
    {
      if s == [] {
        return None;
      }
      var chAvail := s[0];
      AllBitsSnoc(done, chAvail);
      PrefixedSnoc(done, chAvail, ReadMask(nMaskCode - (if chAvail != 0 then 1 else 0), s[1..]));
      vAvail := vAvail + ToBits(chAvail);
      done := done + [chAvail];
      s := s[1..];
      if chAvail != 0 {
        nMaskCode := nMaskCode - 1;
      }
    }
    assert done + [] == done;
    r := Some((vAvail, s));
  }

  /** Fill a vector of null outputs from the stream. */
  method ReadOutputs(codec: OutCodec, vAvail: seq<bool>, s0: Stream) returns (r: Option<(seq<TxOut>, Stream)>)
    ensures r == ReadOuts(codec, vAvail, s0)
  {
    var vout := seq(|vAvail|, _ => C.NullOut);
    var s, i := s0, 0;
    PrefixedSnoc([], C.NullOut, ReadOuts(codec, vAvail, s0));
    assert vAvail[0..] == vAvail;
    while i < |vAvail|
      invariant 0 <= i <= |vAvail| == |vout|
      invariant forall k :: i <= k < |vout| ==> vout[k] == C.NullOut
      invariant ReadOuts(codec, vAvail, s0) == Prefixed(vout[..i], ReadOuts(codec, vAvail[i..], s))
    {
      assert vAvail[i..][1..] == vAvail[i + 1..];
      if vAvail[i] {
        var o := codec.read(s);
        if o.None? {
          return None;
        }
        vout := vout[i := o.value.0];
        s := o.value.1;
      }
      PrefixedSnoc(vout[..i], vout[i], ReadOuts(codec, vAvail[i + 1..], s));
      assert vout[..i + 1] == vout[..i] + [vout[i]];
      i := i + 1;
    }
    assert vout[..i] + [] == vout;
    r := Some((vout, s));
  }

  /** `CCoins::Unserialize`; running off the end of the stream throws. */
  method Unserialize(codec: OutCodec, s: Stream) returns (r: Option<(C.Coins, Stream)>)
    ensures r == Unserialized(codec, s)
  {
    hide DecodeIn, ReadMask, ReadOuts, AllBits;
    var version := ReadVarInt(s, WORD32);
    if version.None? { return None; }
    var code := ReadVarInt(version.value.1, WORD32);
    if code.None? { return None; }
    var nCode := code.value.0;
    var nMaskCode := nCode / 8 + if nCode / 2 % 4 != 0 then 0 else 1;
    var flags := ReadMaskFlags(code.value.1, nMaskCode, [nCode / 2 % 2 == 1, nCode / 4 % 2 == 1]);
    if flags.None? { return None; }
    var outs := ReadOutputs(codec, flags.value.0, flags.value.1);
    if outs.None? { return None; }
    var height := ReadVarInt(outs.value.1, WORD32);
    if height.None? { return None; }
    var coins := C.CleanupLoop(C.Coins(nCode % 2 == 1, outs.value.0, Signed32(height.value.0), Signed32(version.value.0)));
    r := Some((coins, height.value.1));
  }
}
