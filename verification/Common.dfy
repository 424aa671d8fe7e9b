/** Types and byte operations that several models share. */
module Common {

  datatype Option<+T> = None | Some(value: T)

  type U16 = n: nat | n < 0x1_0000

  /** A 16-bit word and its two bytes. */
  function Word(hi: bv8, lo: bv8): bv16 {
    (hi as bv16 << 8) | lo as bv16
  }

  function High(w: bv16): bv8 {
    (w >> 8) as bv8
  }

  function Low(w: bv16): bv8 {
    (w & 0xFF) as bv8
  }

  lemma Halves(w: bv16)
    ensures Word(High(w), Low(w)) == w
  {
  }

  lemma HalvesBack(hi: bv8, lo: bv8)
    ensures High(Word(hi, lo)) == hi && Low(Word(hi, lo)) == lo
  {
  }
}
