/** The power-of-two alignment arithmetic that the arena's allocate and the
    bulk zeroer both use: round an address up with
    `(raw + alignment - 1) & ~(alignment - 1)` on a 64-bit word. */
module Alignment {
  import opened Bits

  /** Bitwise complement of x in a 64-bit word (`~x`). */
  function WordNot(x: nat): (r: nat)
    requires x < WORD
    ensures r < WORD && x + r == WORD - 1
  {
    WORD - 1 - x
  }

  /** `(raw + alignment - 1) & ~(alignment - 1)`: the result is a multiple of
      the alignment, at least raw and less than raw + alignment. The sum is
      required not to wrap around the 64-bit word. */
  function AlignUp(raw: nat, alignment: nat): (r: nat)
    requires IsPow2(alignment) && raw + alignment <= WORD
    ensures r % alignment == 0
    ensures raw <= r < raw + alignment
  {
    assert alignment >= 1;
    var sum := raw + alignment - 1;
    var mask := WordNot(alignment - 1);
    assert mask == WORD - alignment;
    WordIsPow2();
    AndClearsLow(sum, WORD, alignment);
    RoundDownIsMultiple(sum, alignment);
    var low := sum % alignment;
    assert low < alignment;
    assert BitAnd(sum, mask) == sum - low;
    BitAnd(sum, mask)
  }

  /** The rounded address is the least multiple of the alignment that is at
      least raw: no aligned address between raw and it is skipped. */
  lemma AlignUpIsLeast(raw: nat, alignment: nat, m: nat)
    requires IsPow2(alignment) && raw + alignment <= WORD
    requires m % alignment == 0 && raw <= m
    ensures AlignUp(raw, alignment) <= m
  {
    var r := AlignUp(raw, alignment);
    if m < r {
      MultiplesApart(m, r, alignment);
    }
  }

  /** An address that is already aligned is left where it is. */
  lemma AlignUpFixesAligned(raw: nat, alignment: nat)
    requires IsPow2(alignment) && raw + alignment <= WORD
    requires raw % alignment == 0
    ensures AlignUp(raw, alignment) == raw
  {
    AlignUpIsLeast(raw, alignment, raw);
  }
}
