/** Bytes and words as the numbers they stand for: what shifts and masks come to in arithmetic. */
module BitNumbers {
  import opened Common
  import opened Octets

  // The conversions and the parts of a word by name, so that proofs need not look at single bits.

  function Value16(w: bv16): nat {
    w as nat
  }

  function Rest16(w: bv16): bv16 {
    w >> 8
  }

  function Last16(w: bv16): bv16 {
    w & 0xFF
  }

  function Narrow16(w: bv16): bv8
    requires w < 256
  {
    w as bv8
  }

  lemma Split16(w: bv16)
    ensures Value16(w) == 256 * Value16(Rest16(w)) + Value16(Last16(w))
  {
  }

  lemma NarrowValue16(w: bv16)
    requires w < 256
    ensures FromByte(Narrow16(w)) == Value16(w)
  {
  }

  lemma HalvesAre(w: bv16)
    ensures Rest16(w) < 256 && High(w) == Narrow16(Rest16(w))
    ensures Last16(w) < 256 && Low(w) == Narrow16(Last16(w))
  {
  }

  /** The two bytes of a word are its quotient and remainder by 256. */
  lemma HalvesNumber(w: bv16)
    ensures Value16(w) == 256 * FromByte(High(w)) + FromByte(Low(w))
    ensures FromByte(High(w)) == Value16(w) / 256 && FromByte(Low(w)) == Value16(w) % 256
  {
    hide High, Low, FromByte, Value16, Rest16, Last16, Narrow16;
    Split16(w);
    HalvesAre(w);
    NarrowValue16(Rest16(w));
    NarrowValue16(Last16(w));
  }

  /** A word is 256 times its upper byte and its lower one. */
  lemma WordNumber(hi: bv8, lo: bv8)
    ensures Value16(Word(hi, lo)) == 256 * FromByte(hi) + FromByte(lo)
  {
    hide Word, High, Low, FromByte, Value16;
    HalvesBack(hi, lo);
    HalvesNumber(Word(hi, lo));
  }

  lemma WordSwapped(hi: bv8, lo: bv8)
    ensures Word(hi, lo) == lo as bv16 | (hi as bv16 << 8)
  {
  }

  function Doubled(b: bv8): bv8 {
    b << 1
  }

  /** Shifting a byte to the left doubles it modulo 256. */
  lemma DoubleNumber(b: bv8)
    ensures FromByte(Doubled(b)) == 2 * FromByte(b) % 256
  {
  }

  lemma RemainderIs(x: int, q: int, r: int)
    requires x == 256 * q + r && 0 <= r < 256
    ensures x % 256 == r
  {
  }

  lemma DoubleOfSum(h: nat, l: nat)
    requires l < 256
    ensures 2 * (256 * h + l) % 256 == 2 * l % 256
  {
    var c := if l < 128 then 0 else 1;
    RemainderIs(2 * l, c, 2 * l - 256 * c);
    RemainderIs(2 * (256 * h + l), 2 * h + c, 2 * l - 256 * c);
  }

  /** The number whose binary digits are given, the highest first. */
  function BitsNumber(bits: seq<bool>): nat {
    if bits == [] then 0 else 2 * BitsNumber(bits[..|bits| - 1]) + if bits[|bits| - 1] then 1 else 0
  }
}
