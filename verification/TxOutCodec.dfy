/**
 * The compact encoding of a transaction output: its amount and its script
 * (`CTxOutCompressor`, `CScriptCompressor`; src/compressor.h, src/compressor.cpp).
 */
module TxOutCodec {
  import opened Common
  import C = Coins
  import opened VarInt
  import A = Amount
  import CC = CoinsCodec

  type Script = seq<Byte>
  type Stream = seq<Byte>

  const OP_DUP: Byte := 0x76
  const OP_EQUAL: Byte := 0x87
  const OP_EQUALVERIFY: Byte := 0x88
  const OP_HASH160: Byte := 0xa9
  const OP_CHECKSIG: Byte := 0xac

  /** The number of codes set aside for scripts of a special form. */
  const SPECIAL_SCRIPTS: nat := 6

  /** What the elliptic curve library answers about public keys (`CPubKey::IsFullyValid`, `Decompress`). */
  datatype Curve = Curve(valid: seq<Byte> -> bool, decompress: seq<Byte> -> Option<seq<Byte>>)

  /** A valid 65-byte key is determined by its first coordinate and the parity of its second; decompressed keys have 65 bytes. */
  ghost predicate Lawful(k: Curve) {
    && (forall short: seq<Byte> {:trigger k.decompress(short)} :: k.decompress(short).Some? ==> |k.decompress(short).value| == 65)
    && forall key: seq<Byte> {:trigger k.valid(key)} :: |key| == 65 && key[0] == 4 && k.valid(key) ==>
      k.decompress([2 + key[64] % 2] + key[1..33]) == Some(key)
  }

  // ---------------------------------------------------------------- scripts of a special form

  predicate IsToKeyID(s: Script) {
    |s| == 25 && s[0] == OP_DUP && s[1] == OP_HASH160 && s[2] == 20 && s[23] == OP_EQUALVERIFY && s[24] == OP_CHECKSIG
  }

  predicate IsToScriptID(s: Script) {
    |s| == 23 && s[0] == OP_HASH160 && s[1] == 20 && s[22] == OP_EQUAL
  }

  predicate IsToShortKey(s: Script) {
    |s| == 35 && s[0] == 33 && s[34] == OP_CHECKSIG && (s[1] == 2 || s[1] == 3)
  }

  predicate IsToLongKey(k: Curve, s: Script) {
    |s| == 67 && s[0] == 65 && s[66] == OP_CHECKSIG && s[1] == 4 && k.valid(s[1..66])
  }

  /** `CScriptCompressor::Compress`. */
  function Compress(k: Curve, s: Script): (r: Option<seq<Byte>>) {
    if IsToKeyID(s) then Some([0] + s[3..23])
    else if IsToScriptID(s) then Some([1] + s[2..22])
    else if IsToShortKey(s) then Some([s[1]] + s[2..34])
    else if IsToLongKey(k, s) then Some([4 + s[65] % 2] + s[2..34])
    else None
  }

  /** `CScriptCompressor::GetSpecialSize`. */
  function SpecialSize(n: nat): nat {
    if n <= 1 then 20 else if n <= 5 then 32 else 0
  }

  /** `CScriptCompressor::Decompress`, for the special codes. */
  function Decompress(k: Curve, n: nat, data: seq<Byte>): Option<Script>
    requires n < SPECIAL_SCRIPTS && |data| == SpecialSize(n)
  {
    if n == 0 then Some([OP_DUP, OP_HASH160, 20] + data + [OP_EQUALVERIFY, OP_CHECKSIG])
    else if n == 1 then Some([OP_HASH160, 20] + data + [OP_EQUAL])
    else if n <= 3 then Some([33, n] + data + [OP_CHECKSIG])
    else
      match k.decompress([n - 2] + data)
      case None => None
      case Some(key) => Some([65] + key + [OP_CHECKSIG])
  }

  lemma KeyIDForm(s: Script)
    requires IsToKeyID(s)
    ensures s == [OP_DUP, OP_HASH160, 20] + s[3..23] + [OP_EQUALVERIFY, OP_CHECKSIG]
  {
  }

  lemma ScriptIDForm(s: Script)
    requires IsToScriptID(s)
    ensures s == [OP_HASH160, 20] + s[2..22] + [OP_EQUAL]
  {
  }

  lemma ShortKeyForm(s: Script)
    requires IsToShortKey(s)
    ensures s == [33, s[1]] + s[2..34] + [OP_CHECKSIG]
  {
  }

  lemma LongKeyForm(k: Curve, s: Script)
    requires Lawful(k) && IsToLongKey(k, s)
    ensures s == [65] + s[1..66] + [OP_CHECKSIG]
    ensures k.decompress([2 + s[65] % 2] + s[2..34]) == Some(s[1..66])
  {
    var key := s[1..66];
    assert key[64] == s[65] && key[1..33] == s[2..34];
    assert k.valid(key);
  }

  /** A script that compresses is restored from its code and data, whichever form it has. */
  lemma DecompressCompress(k: Curve, s: Script)
    requires Lawful(k) && Compress(k, s).Some?
    ensures var c := Compress(k, s).value;
            && |c| > 0 && c[0] < SPECIAL_SCRIPTS && |c| == 1 + SpecialSize(c[0])
            && Decompress(k, c[0], c[1..]) == Some(s)
  {
    var c := Compress(k, s).value;
    if IsToKeyID(s) {
      KeyIDForm(s);
      assert c[1..] == s[3..23];
    } else if IsToScriptID(s) {
      ScriptIDForm(s);
      assert c[1..] == s[2..22];
    } else if IsToShortKey(s) {
      ShortKeyForm(s);
      assert c[1..] == s[2..34];
    } else {
      LongKeyForm(k, s);
      assert c[1..] == s[2..34];
    }
  }

  // ---------------------------------------------------------------- scripts on a stream

  /** `CScriptCompressor::Serialize`. */
  function WriteScript(k: Curve, s: Script): Stream {
    match Compress(k, s)
    case Some(c) => c
    case None => Encoding((|s| + SPECIAL_SCRIPTS) % WORD32) + s
  }

  /** `CScriptCompressor::Unserialize` into an empty script, which a failed decompression leaves empty. */
  function ReadScript(k: Curve, stream: Stream): Option<(Script, Stream)> {
    match DecodeIn(WORD32, stream)
    case None => None
    case Some((n, s)) =>
      if n < SPECIAL_SCRIPTS then
        var size := SpecialSize(n);
        if |s| < size then None
        else
          var script := Decompress(k, n, s[..size]);
          Some((if script.Some? then script.value else [], s[size..]))
      else if |s| < n - SPECIAL_SCRIPTS then None
      else Some((s[..n - SPECIAL_SCRIPTS], s[n - SPECIAL_SCRIPTS..]))
  }

  lemma DecodeByte(b: Byte, rest: Stream)
    requires b < 128
    ensures DecodeIn(WORD32, [b] + rest) == Some((b, rest))
  {
    assert ([b] + rest)[1..] == rest;
  }

  lemma SpecialRead(k: Curve, s: Script, rest: Stream)
    requires Lawful(k) && Compress(k, s).Some?
    ensures ReadScript(k, WriteScript(k, s) + rest) == Some((s, rest))
  {
    hide DecodeIn, Decompress, Compress, Lawful;
    var c := Compress(k, s).value;
    DecompressCompress(k, s);
    var t := c[1..] + rest;
    assert c + rest == [c[0]] + t;
    DecodeByte(c[0], t);
    assert t[..|c| - 1] == c[1..] && t[|c| - 1..] == rest;
  }

  /** Does the size of a script, as it is written, fit in 32 bits? */
  predicate ScriptFits(k: Curve, s: Script) {
    Compress(k, s).Some? || |s| + SPECIAL_SCRIPTS < WORD32
  }

  lemma DecompressedLength(k: Curve, n: nat, data: seq<Byte>)
    requires Lawful(k) && n < SPECIAL_SCRIPTS && |data| == SpecialSize(n) && Decompress(k, n, data).Some?
    ensures |Decompress(k, n, data).value| <= 67
  {
  }

  /** A script is read back from what was written, with nothing after it touched, exactly if its size fits in 32 bits. */
  lemma ReadWriteScript(k: Curve, s: Script, rest: Stream)
    requires Lawful(k)
    ensures ReadScript(k, WriteScript(k, s) + rest) == Some((s, rest)) <==> ScriptFits(k, s)
  {
    hide DecodeIn, Encode, Decompress, Compress, Lawful;
    if Compress(k, s).Some? {
      SpecialRead(k, s, rest);
    } else {
      var n, t := (|s| + SPECIAL_SCRIPTS) % WORD32, s + rest;
      assert WriteScript(k, s) + rest == Encoding(n) + t;
      DecodeInEncode(WORD32, n, t);
      if ScriptFits(k, s) {
        assert t[..|s|] == s && t[|s|..] == rest;
      } else if n < SPECIAL_SCRIPTS {
        var data := t[..SpecialSize(n)];
        if Decompress(k, n, data).Some? {
          DecompressedLength(k, n, data);
        }
      }
    }
  }

  lemma ShortEncoding(n: nat)
    ensures n < 128 ==> Encoding(n) == [n]
    ensures 128 <= n < 16512 ==> |Encoding(n)| == 2
    ensures n >= 16512 ==> |Encoding(n)| >= 3
  {
    if n >= 128 {
      assert |Encode(n, true)| == |Encode(n / 128 - 1, false)| + 1;
    }
  }

  /** The bytes written for a payment to a key hash and to a script hash: a code and the hash. */
  lemma HashScripts(k: Curve, hash: seq<Byte>)
    requires |hash| == 20
    ensures WriteScript(k, [0x76, 0xa9, 20] + hash + [0x88, 0xac]) == [0] + hash
    ensures WriteScript(k, [0xa9, 20] + hash + [0x87]) == [1] + hash
  {
    var a, b := [0x76, 0xa9, 20] + hash + [0x88, 0xac], [0xa9, 20] + hash + [0x87];
    assert a[3..23] == hash && b[2..22] == hash;
    assert IsToKeyID(a) && IsToScriptID(b);
  }

  /** Those for a payment to a public key: a code that tells the parity, and one coordinate. */
  lemma KeyScripts(k: Curve, x: seq<Byte>, y: seq<Byte>)
    requires |x| == 32 && |y| == 32
    ensures forall p: Byte :: p == 2 || p == 3 ==> WriteScript(k, [33, p] + x + [0xac]) == [p] + x
    ensures k.valid([4] + x + y) ==> WriteScript(k, [65, 4] + x + y + [0xac]) == [4 + y[31] % 2] + x
  {
    forall p: Byte | p == 2 || p == 3 ensures WriteScript(k, [33, p] + x + [0xac]) == [p] + x {
      var s := [33, p] + x + [0xac];
      assert s[2..34] == x && IsToShortKey(s);
    }
    var s := [65, 4] + x + y + [0xac];
    assert s[1..66] == [4] + x + y && s[2..34] == x && s[65] == y[31];
  }

  /** A script of one of these forms. */
  predicate IsSpecial(k: Curve, s: Script) {
    || (|s| == 25 && s[..3] == [0x76, 0xa9, 20] && s[23..] == [0x88, 0xac])
    || (|s| == 23 && s[..2] == [0xa9, 20] && s[22] == 0x87)
    || (|s| == 35 && (s[..2] == [33, 2] || s[..2] == [33, 3]) && s[34] == 0xac)
    || (|s| == 67 && s[..2] == [65, 4] && s[66] == 0xac && k.valid(s[1..66]))
  }

  lemma SpecialExactly(k: Curve, s: Script)
    ensures Compress(k, s).Some? <==> IsSpecial(k, s)
  {
    if |s| == 25 {
      assert s[..3] == [s[0], s[1], s[2]] && s[23..] == [s[23], s[24]];
    }
    if |s| >= 23 {
      assert s[..2] == [s[0], s[1]];
    }
  }

  /** The sizes of written scripts, and how the short ones start. */
  lemma ScriptSize(k: Curve, s: Script)
    ensures var w := WriteScript(k, s);
            && (IsSpecial(k, s) ==> |w| == if |s| <= 25 then 21 else 33)
            && (!IsSpecial(k, s) && |s| + 6 < 0x1_0000_0000 ==>
                  && (|w| == |s| + 1 <==> |s| <= 121)
                  && (|w| == |s| + 2 <==> 121 < |s| <= 16505)
                  && (|s| <= 121 ==> w == [|s| + 6] + s))
  {
    SpecialExactly(k, s);
    if !IsSpecial(k, s) && |s| + 6 < 0x1_0000_0000 {
      ShortEncoding(|s| + 6);
    }
  }

  // ---------------------------------------------------------------- outputs on a stream

  /** A signed 64-bit value as an unsigned word, and back. */
  function Unsigned(v: int): nat {
    v % WORD
  }

  function Signed(n: nat): int {
    if n < WORD / 2 then n else n - WORD
  }

  predicate IsInt64(v: int) {
    -(WORD / 2) <= v < WORD / 2
  }

  /** `CTxOutCompressor` writing: the amount in its compact form, then the script. */
  function WriteOut(k: Curve, o: C.TxOut): Stream {
    Encoding(A.Wrap(A.Compress(Unsigned(o.value)))) + WriteScript(k, o.script)
  }

  /** `CTxOutCompressor` reading. */
  function ReadOut(k: Curve, stream: Stream): Option<(C.TxOut, Stream)> {
    match DecodeIn(WORD, stream)
    case None => None
    case Some((n, s)) =>
      match ReadScript(k, s)
      case None => None
      case Some((script, rest)) => Some((C.TxOut(Signed(A.Wrap(A.Decompress(n))), script), rest))
  }

  lemma SignedUnsigned(v: int, n: nat)
    requires IsInt64(v) && n < WORD
    ensures Unsigned(v) < WORD && (Signed(n) == v <==> n == Unsigned(v))
  {
  }

  /** An output is read back exactly when the code of its amount fits in a 64-bit word and the size of its script in 32 bits. */
  lemma ReadWriteOutExactly(k: Curve, o: C.TxOut, rest: Stream)
    requires Lawful(k) && IsInt64(o.value)
    ensures ReadOut(k, WriteOut(k, o) + rest) == Some((o, rest)) <==> A.Fits(Unsigned(o.value)) && ScriptFits(k, o.script)
  {
    hide DecodeIn, Encode, ScriptFits, ReadScript, WriteScript, A.Compress, A.Decompress, A.Fits, Signed, Unsigned;
    var n := A.Wrap(A.Compress(Unsigned(o.value)));
    var t := WriteScript(k, o.script) + rest;
    assert WriteOut(k, o) + rest == Encoding(n) + t;
    DecodeInEncode(WORD, n, t);
    ReadWriteScript(k, o.script, rest);
    SignedUnsigned(o.value, A.Wrap(A.Decompress(n)));
    A.RoundTripExactly(Unsigned(o.value));
  }

  function Codec(k: Curve): CC.OutCodec {
    CC.OutCodec(o => WriteOut(k, o), s => ReadOut(k, s))
  }

  /** A coin record of ordinary outputs goes through its byte encoding unchanged. */
  lemma CoinsRoundTrip(k: Curve, c: C.Coins, rest: Stream)
    requires Lawful(k) && !c.IsPruned() && c.Cleaned() && c.version >= 0 && c.height >= 0 && CC.Representable(c)
    requires forall i :: 0 <= i < |c.vout| ==>
      || c.vout[i] == C.NullOut
      || (c.vout[i].value >= 0 && IsInt64(c.vout[i].value) && A.Fits(c.vout[i].value) && ScriptFits(k, c.vout[i].script))
    ensures CC.Writable(c) && CC.Unserialized(Codec(k), CC.Serialized(Codec(k), c) + rest) == Some((c, rest))
  {
    hide A.Fits, ScriptFits, WriteOut, ReadOut, CC.Unserialized, CC.Serialized, CC.Writable;
    CC.WritableExactly(c);
    forall i, s: Stream | 0 <= i < |c.vout| && !c.vout[i].IsNull()
      ensures ReadOut(k, WriteOut(k, c.vout[i]) + s) == Some((c.vout[i], s))
    {
      assert Unsigned(c.vout[i].value) == c.vout[i].value;
      ReadWriteOutExactly(k, c.vout[i], s);
    }
    CC.RoundTripExactly(Codec(k), c, rest);
  }
}
