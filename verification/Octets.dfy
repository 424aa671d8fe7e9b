/** Numbers below 256 as bytes. */
module Octets {

  function ToByte(x: nat): bv8
    requires x < 256
  {
    x as bv8
  }

  function FromByte(b: bv8): (x: nat)
    ensures x < 256
  {
    b as nat
  }

  lemma CastBack(x: nat)
    requires x < 256
    ensures (x as bv8) as nat == x
  {
    // One row of sixteen values at a time.
    match x / 16 {
      case 0 => case 1 => case 2 => case 3 => case 4 => case 5 => case 6 => case 7 =>
      case 8 => case 9 => case 10 => case 11 => case 12 => case 13 => case 14 => case _ =>
    }
  }

  lemma ToByteIs(x: nat)
    requires x < 256
    ensures ToByte(x) == x as bv8
  {
  }

  lemma FromByteIs(b: bv8)
    ensures FromByte(b) == b as nat
  {
  }

  lemma ByteRoundTrip(x: nat)
    requires x < 256
    ensures FromByte(ToByte(x)) == x
  {
    hide ToByte, FromByte;
    CastBack(x);
    ToByteIs(x);
    FromByteIs(x as bv8);
  }
}
