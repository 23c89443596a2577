/** Small definitions shared by the modules. */
module Common {

  datatype Option<+T> = None | Some(value: T)

  type Byte = b: int | 0 <= b < 256

  /** The number of values of a 64-bit word. */
  const WORD: nat := 0x1_0000_0000_0000_0000

  /** The number of values of a 32-bit word. */
  const WORD32: nat := 0x1_0000_0000

  /** The largest size of a block, in bytes. */
  const MAX_BLOCK_SIZE: int := 5_000_000

  function Min(a: int, b: int): int { if a < b then a else b }

  function Max(a: int, b: int): int { if a < b then b else a }

  function Pow2(k: nat): (p: nat)
    ensures p >= 1
  {
    if k == 0 then 1 else 2 * Pow2(k - 1)
  }

  lemma SomeElement<T>(s: set<T>) returns (x: T)
    requires s != {}
    ensures x in s
  {
    assert (forall y :: y in s ==> y in {}) ==> s <= {};
    x :| x in s;
  }
}
