/** Base58 on pairs that the unit tests of the source list (src/test/data/base58_encode_decode.json). */
module Base58Vectors {
  import opened Positional
  import opened Base58

  /** White space: the blank and the five control characters from the tabulator to the carriage return. */
  lemma Spaces(c: char)
    ensures IsSpace(c) <==> c in {' ', '\t', '\n', '\r', '\U{0B}', '\U{0C}'}
  {
  }

  lemma Horner(ds: seq<nat>, d: nat, b: nat, more: seq<nat>)
    requires more == ds + [d]
    ensures Value(more, b) == Value(ds, b) * b + d && Value([], b) == 0
  {
    assert more[..|ds|] == ds;
  }

  /** Numerals of the same value, without leading zeroes. */
  lemma Same(bytes: seq<nat>, ds: seq<nat>)
    requires bytes != [] && bytes[0] != 0 && Digits(bytes, 256) && ds != [] && ds[0] != 0 && Digits(ds, 58)
    requires Value(bytes, 256) == Value(ds, 58)
    ensures Encoded(bytes) == Letters(ds)
  {
    hide Value, ToDigits, Letters;
    assert bytes[0..] == bytes;
    LeadingZeroesUnique(bytes, 0);
    ValueToDigits(ds, 58);
    assert Zeroes(0) + ToDigits(Value(bytes, 256), 58) == ds;
  }

  /** 0x61 is written "2g". */
  lemma OneByte()
    ensures Encoded([0x61]) == "2g"
  {
    hide Value, ToDigits, Convert, Letters;
    Horner([], 97, 256, [97]);
    Horner([], 1, 58, [1]);
    Horner([1], 39, 58, [1, 39]);
    Same([97], [1, 39]);
    OneByteLetters();
  }

  lemma OneByteLetters()
    ensures Letters([1, 39]) == "2g"
  {
    AlphabetCodes();
  }

  /** Three bytes. */
  lemma ThreeBytes()
    ensures Encoded([0x62, 0x62, 0x62]) == "a3gV"
  {
    hide Value, ToDigits, Convert, Letters;
    Horner([], 98, 256, [98]);
    Horner([98], 98, 256, [98, 98]);
    Horner([98, 98], 98, 256, [98, 98, 98]);
    Horner([], 33, 58, [33]);
    Horner([33], 2, 58, [33, 2]);
    Horner([33, 2], 39, 58, [33, 2, 39]);
    Horner([33, 2, 39], 28, 58, [33, 2, 39, 28]);
    Same([98, 98, 98], [33, 2, 39, 28]);
    ThreeBytesLetters();
  }

  lemma ThreeBytesLetters()
    ensures Letters([33, 2, 39, 28]) == "a3gV"
  {
    AlphabetCodes();
  }

  /** Five bytes. */
  lemma FiveBytes()
    ensures Encoded([0x51, 0x6b, 0x6f, 0xcd, 0x0f]) == "ABnLTmg"
  {
    hide Value, ToDigits, Convert, Letters;
    Horner([], 81, 256, [81]);
    Horner([81], 107, 256, [81, 107]);
    Horner([81, 107], 111, 256, [81, 107, 111]);
    Horner([81, 107, 111], 205, 256, [81, 107, 111, 205]);
    Horner([81, 107, 111, 205], 15, 256, [81, 107, 111, 205, 15]);
    Horner([], 9, 58, [9]);
    Horner([9], 10, 58, [9, 10]);
    Horner([9, 10], 45, 58, [9, 10, 45]);
    Horner([9, 10, 45], 19, 58, [9, 10, 45, 19]);
    Horner([9, 10, 45, 19], 26, 58, [9, 10, 45, 19, 26]);
    Horner([9, 10, 45, 19, 26], 44, 58, [9, 10, 45, 19, 26, 44]);
    Horner([9, 10, 45, 19, 26, 44], 39, 58, [9, 10, 45, 19, 26, 44, 39]);
    Same([81, 107, 111, 205, 15], [9, 10, 45, 19, 26, 44, 39]);
    FiveBytesLetters();
  }

  lemma FiveBytesLetters()
    ensures Letters([9, 10, 45, 19, 26, 44, 39]) == "ABnLTmg"
  {
    AlphabetCodes();
  }

  /** Zero bytes are written as ones, and nothing as nothing. */
  lemma ZeroBytes(n: nat)
    ensures Digits(Zeroes(n), 256) && |Encoded(Zeroes(n))| == n && forall i :: 0 <= i < n ==> Encoded(Zeroes(n))[i] == '1'
  {
    hide Letters;
    LeadingZeroesUnique(Zeroes(n), n);
    assert Zeroes(n)[n..] == [];
    assert Convert(Zeroes(n), 256, 58) == Zeroes(n);
    IndexOfLetter(0);
    ZeroLetters(n);
  }

  lemma ZeroLetters(n: nat)
    ensures Digits(Zeroes(n), 58) && |Letters(Zeroes(n))| == n && forall i :: 0 <= i < n ==> Letters(Zeroes(n))[i] == '1'
  {
    IndexOfLetter(0);
  }
}
