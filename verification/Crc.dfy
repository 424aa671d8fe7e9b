/** Both checksums of lib/crc.c. */
module Crc {
  import opened Common
  import opened CrcBits
  import opened CrcTables

  // ---- CRC-16 -------------------------------------------------------------------------------

  /** The remainder after one more byte of the message, bit by bit. */
  function ByteStep(c: bv16, b: bv8): bv16 {
    EightSteps(Mixed(c, b))
  }

  function Mixed(c: bv16, b: bv8): bv16 {
    Xor(c, Wide(b))
  }

  function XorByte(a: bv8, b: bv8): bv8 {
    a ^ b
  }

  /** The remainder after `data`, starting from `c`. */
  function Residue(c: bv16, data: seq<bv8>): bv16 {
    if data == [] then c else ByteStep(Residue(c, data[..|data| - 1]), data[|data| - 1])
  }

  function Crc16(data: seq<bv8>): bv16 {
    Residue(0xFFFF, data)
  }

  lemma IndexBits(hi: bv8, lo: bv8, b: bv8)
    ensures Bottom(Mixed(Word(hi, lo), b)) == Wide(XorByte(lo, b)) && Top(Mixed(Word(hi, lo), b)) == Wide(hi)
  {
  }

  lemma XorEntry(hi: bv8, tableHi: bv8, tableLo: bv8)
    ensures Word(tableLo, XorByte(hi, tableHi)) == Xor(Word(tableLo, tableHi), Wide(hi))
  {
  }

  /** One turn of the table loop is one byte of division. */
  lemma TableStep(hi: bv8, lo: bv8, b: bv8)
    ensures var i := XorByte(lo, b); Word(TableLo(i), XorByte(hi, TableHi(i))) == ByteStep(Word(hi, lo), b)
  {
    hide EightSteps, TableHi, TableLo, Word, Mixed, Xor, Bottom, Top, Wide, XorByte;
    var i := XorByte(lo, b);
    TablesDivide(i);
    EightStepsSplit(Mixed(Word(hi, lo), b));
    IndexBits(hi, lo, b);
    XorEntry(hi, TableHi(i), TableLo(i));
  }

  /** `crc_16_ibm`: the two-table loop computes the bit-by-bit remainder, for any length. */
  method Crc16Ibm(frame: array<bv8>, len: nat) returns (crc: bv16)
    requires len <= frame.Length
    ensures crc == Crc16(frame[..len])
  {
    hide TableHi, TableLo, ByteStep, Word, XorByte;
    var hi: bv8, lo: bv8 := 0xFF, 0xFF;
    WordOfOnes();
    var i := 0;
    while i < len
      invariant i <= len && Word(hi, lo) == Crc16(frame[..i])
    {
      var index := XorByte(lo, frame[i]);
      TableStep(hi, lo, frame[i]);
      lo := XorByte(hi, TableHi(index));
      hi := TableLo(index);
      i := i + 1;
      assert frame[..i][..i - 1] == frame[..i - 1];
    }
    crc := Word(hi, lo);
  }

  lemma WordOfOnes()
    ensures Word(0xFF, 0xFF) == 0xFFFF
  {
  }

  lemma {:induction false} ResidueAdds(c: bv16, a: seq<bv8>, b: seq<bv8>)
    ensures Residue(c, a + b) == Residue(Residue(c, a), b)
    decreases b
  {
    if b == [] {
      assert a + b == a;
    } else {
      ResidueAdds(c, a, b[..|b| - 1]);
      assert (a + b)[..|a + b| - 1] == a + b[..|b| - 1];
    }
  }

  lemma ResidueOne(c: bv16, b: bv8)
    ensures Residue(c, [b]) == ByteStep(c, b)
  {
  }

  lemma ResidueTwo(c: bv16, a: bv8, b: bv8)
    ensures Residue(c, [a, b]) == ByteStep(ByteStep(c, a), b)
  {
    hide ByteStep;
    assert [a, b][..1] == [a];
    ResidueOne(c, a);
  }

  lemma OwnBytesCancel(c: bv16)
    ensures ByteStep(ByteStep(c, Low(c)), High(c)) == 0
  {
  }

  /** A frame followed by its CRC, low byte first, leaves no remainder. */
  lemma AppendedCrcVanishes(data: seq<bv8>)
    ensures Crc16(data + [Low(Crc16(data)), High(Crc16(data))]) == 0
  {
    hide ByteStep, Low, High;
    var c := Crc16(data);
    ResidueAdds(0xFFFF, data, [Low(c), High(c)]);
    ResidueTwo(c, Low(c), High(c));
    OwnBytesCancel(c);
  }

  /** Equal tails never make two different remainders equal. */
  lemma {:induction false} DifferenceStays(c: bv16, d: bv16, tail: seq<bv8>)
    requires c != d
    ensures Residue(c, tail) != Residue(d, tail)
  {
    if tail != [] {
      var n := |tail| - 1;
      DifferenceStays(c, d, tail[..n]);
      StepKeepsDifference(Residue(c, tail[..n]), Residue(d, tail[..n]), tail[n]);
    }
  }

  lemma StepKeepsDifference(c: bv16, d: bv16, b: bv8)
    requires c != d
    ensures ByteStep(c, b) != ByteStep(d, b)
  {
    MixKeepsDifference(c, d, b);
    hide EightSteps, Mixed;
    if EightSteps(Mixed(c, b)) == EightSteps(Mixed(d, b)) {
      EightStepsInjective(Mixed(c, b), Mixed(d, b));
    }
  }

  lemma MixKeepsDifference(c: bv16, d: bv16, b: bv8)
    requires c != d
    ensures Mixed(c, b) != Mixed(d, b)
  {
  }

  /** Two adjacent bytes can be told from the remainder they lead to. */
  lemma PairMatters(c: bv16, a: bv8, b: bv8, x: bv8, y: bv8)
    requires ByteStep(ByteStep(c, a), b) == ByteStep(ByteStep(c, x), y)
    ensures a == x && b == y
  {
    hide EightSteps, Mixed, Xor, Bottom, Top;
    var ca, cx := Mixed(c, a), Mixed(c, x);
    EightStepsInjective(Mixed(EightSteps(ca), b), Mixed(EightSteps(cx), y));
    EightStepsSplit(ca);
    EightStepsSplit(cx);
    MixedParts(c, a, x);
    var s, t := EightSteps(Bottom(ca)), EightSteps(Bottom(cx));
    CommonTermCancels(s, t, Top(ca), b, y);
    TopByteTells(Bottom(ca), Bottom(cx));
    MixTells(EightSteps(ca), b, y);
  }

  lemma MixedParts(c: bv16, a: bv8, x: bv8)
    ensures Top(Mixed(c, a)) == Top(Mixed(c, x)) == Top(c)
    ensures Bottom(Mixed(c, a)) == Bottom(Mixed(c, x)) ==> a == x
    ensures Bottom(Mixed(c, a)) < 256 && Bottom(Mixed(c, x)) < 256
  {
  }

  lemma CommonTermCancels(s: bv16, t: bv16, g: bv16, b: bv8, y: bv8)
    requires Mixed(Xor(s, g), b) == Mixed(Xor(t, g), y)
    ensures Top(s) == Top(t)
  {
  }

  lemma MixTells(s: bv16, b: bv8, y: bv8)
    requires Mixed(s, b) == Mixed(s, y)
    ensures b == y
  {
  }

  /** Changing one or two adjacent bytes of a frame always changes its remainder. */
  lemma BurstIsSeen(data: seq<bv8>, k: nat, x: bv8, y: bv8)
    requires k + 1 < |data| && (data[k] != x || data[k + 1] != y)
    ensures Crc16(data) != Crc16(data[k := x][k + 1 := y])
  {
    hide ByteStep;
    var head, tail := data[..k], data[k + 2..];
    var c := Residue(0xFFFF, head);
    assert data == head + [data[k], data[k + 1]] + tail;
    assert data[k := x][k + 1 := y] == head + [x, y] + tail;
    ResidueAdds(0xFFFF, head + [data[k], data[k + 1]], tail);
    ResidueAdds(0xFFFF, head + [x, y], tail);
    ResidueAdds(0xFFFF, head, [data[k], data[k + 1]]);
    ResidueAdds(0xFFFF, head, [x, y]);
    ResidueTwo(c, data[k], data[k + 1]);
    ResidueTwo(c, x, y);
    if ByteStep(ByteStep(c, data[k]), data[k + 1]) == ByteStep(ByteStep(c, x), y) {
      PairMatters(c, data[k], data[k + 1], x, y);
    }
    DifferenceStays(ByteStep(ByteStep(c, data[k]), data[k + 1]), ByteStep(ByteStep(c, x), y), tail);
  }

  lemma Steps16()
    ensures ByteStep(0xFFFF, 0x31) == 0x947E
    ensures ByteStep(0x947E, 0x32) == 0xF595
    ensures ByteStep(0xF595, 0x33) == 0x7A75
    ensures ByteStep(0x7A75, 0x34) == 0x30BA
    ensures ByteStep(0x30BA, 0x35) == 0xA471
    ensures ByteStep(0xA471, 0x36) == 0x32E4
    ensures ByteStep(0x32E4, 0x37) == 0x9D73
    ensures ByteStep(0x9D73, 0x38) == 0x37DD
    ensures ByteStep(0x37DD, 0x39) == 0x4B37
  {
  }

  /** The check value of CRC-16/MODBUS, of the digits 1 to 9 as characters. */
  lemma Check16()
    ensures Crc16([0x31, 0x32, 0x33, 0x34, 0x35, 0x36, 0x37, 0x38, 0x39]) == 0x4B37
  {
    hide ByteStep;
    var d := [0x31, 0x32, 0x33, 0x34, 0x35, 0x36, 0x37, 0x38, 0x39];
    Steps16();
    assert d[..1][..0] == d[..0] && Residue(0xFFFF, d[..1]) == 0x947E;
    assert d[..2][..1] == d[..1] && Residue(0xFFFF, d[..2]) == 0xF595;
    assert d[..3][..2] == d[..2] && Residue(0xFFFF, d[..3]) == 0x7A75;
    assert d[..4][..3] == d[..3] && Residue(0xFFFF, d[..4]) == 0x30BA;
    assert d[..5][..4] == d[..4] && Residue(0xFFFF, d[..5]) == 0xA471;
    assert d[..6][..5] == d[..5] && Residue(0xFFFF, d[..6]) == 0x32E4;
    assert d[..7][..6] == d[..6] && Residue(0xFFFF, d[..7]) == 0x9D73;
    assert d[..8][..7] == d[..7] && Residue(0xFFFF, d[..8]) == 0x37DD;
    assert d[..9][..8] == d[..8] && Residue(0xFFFF, d[..9]) == 0x4B37;
    assert d[..9] == d;
  }

  // ---- CRC-8 --------------------------------------------------------------------------------

  /** One bit of division by 0x31, most significant bit first. */
  function Bit8(c: bv8): bv8 {
    if c & 0x80 != 0 then (c << 1) ^ 0x31 else c << 1
  }

  function Bits8(c: bv8, n: nat): bv8 {
    if n == 0 then c else Bit8(Bits8(c, n - 1))
  }

  /** The remainder after one more byte. */
  function ByteStep8(c: bv8, b: bv8): bv8 {
    Bits8(XorByte(c, b), 8)
  }

  /** The remainder after `data`, starting from `c`. */
  function Residue8(c: bv8, data: seq<bv8>): bv8 {
    if data == [] then c else ByteStep8(Residue8(c, data[..|data| - 1]), data[|data| - 1])
  }

  function Crc8(data: seq<bv8>): bv8 {
    Residue8(0xFF, data)
  }

  /** `crc_8_dallas`. */
  method Crc8Dallas(data: seq<bv8>) returns (crc: bv8)
    ensures crc == Crc8(data)
  {
    hide Bit8, XorByte;
    crc := 0xFF;
    var k := 0;
    while k < |data|
      invariant k <= |data| && crc == Crc8(data[..k])
    {
      assert data[..k + 1][..k] == data[..k];
      crc := XorByte(crc, data[k]);
      ghost var before := crc;
      for i := 0 to 8
        invariant crc == Bits8(before, i)
      {
        crc := Bit8(crc);
      }
      k := k + 1;
    }
    assert data[..k] == data;
  }

  lemma {:induction false} ResidueAdds8(c: bv8, a: seq<bv8>, b: seq<bv8>)
    ensures Residue8(c, a + b) == Residue8(Residue8(c, a), b)
    decreases b
  {
    hide ByteStep8;
    if b == [] {
      assert a + b == a;
    } else {
      ResidueAdds8(c, a, b[..|b| - 1]);
      assert (a + b)[..|a + b| - 1] == a + b[..|b| - 1];
    }
  }

  lemma ResidueOne8(c: bv8, b: bv8)
    ensures Residue8(c, [b]) == ByteStep8(c, b)
  {
    hide ByteStep8;
    assert [b][..0] == [];
  }

  lemma BitInjective8(a: bv8, b: bv8)
    requires Bit8(a) == Bit8(b)
    ensures a == b
  {
  }

  lemma {:induction false} BitsInjective8(a: bv8, b: bv8, n: nat)
    requires Bits8(a, n) == Bits8(b, n)
    ensures a == b
  {
    hide Bit8;
    if n > 0 {
      BitInjective8(Bits8(a, n - 1), Bits8(b, n - 1));
      BitsInjective8(a, b, n - 1);
    }
  }

  lemma XorTells(c: bv8, d: bv8, b: bv8)
    ensures XorByte(c, b) == XorByte(d, b) <==> c == d
  {
  }

  lemma XorSwaps(c: bv8, b: bv8)
    ensures XorByte(c, b) == XorByte(b, c)
  {
  }

  lemma XorItself(c: bv8)
    ensures XorByte(c, c) == 0
  {
  }

  /** Equal tails never make two different remainders equal. */
  lemma {:induction false} DifferenceStays8(c: bv8, d: bv8, tail: seq<bv8>)
    requires c != d
    ensures Residue8(c, tail) != Residue8(d, tail)
  {
    hide Bits8, XorByte;
    if tail != [] {
      var n := |tail| - 1;
      var e, f := Residue8(c, tail[..n]), Residue8(d, tail[..n]);
      DifferenceStays8(c, d, tail[..n]);
      XorTells(e, f, tail[n]);
      if ByteStep8(e, tail[n]) == ByteStep8(f, tail[n]) {
        BitsInjective8(XorByte(e, tail[n]), XorByte(f, tail[n]), 8);
      }
    }
  }

  /** Changing one byte always changes the checksum. */
  lemma ByteIsSeen8(data: seq<bv8>, k: nat, x: bv8)
    requires k < |data| && data[k] != x
    ensures Crc8(data) != Crc8(data[k := x])
  {
    hide Bits8, XorByte;
    var head, tail := data[..k], data[k + 1..];
    var c := Residue8(0xFF, head);
    assert data == head + [data[k]] + tail;
    assert data[k := x] == head + [x] + tail;
    ResidueAdds8(0xFF, head + [data[k]], tail);
    ResidueAdds8(0xFF, head + [x], tail);
    ResidueAdds8(0xFF, head, [data[k]]);
    ResidueAdds8(0xFF, head, [x]);
    ResidueOne8(c, data[k]);
    ResidueOne8(c, x);
    XorTells(data[k], x, c);
    XorSwaps(data[k], c);
    XorSwaps(x, c);
    if ByteStep8(c, data[k]) == ByteStep8(c, x) {
      BitsInjective8(XorByte(c, data[k]), XorByte(c, x), 8);
    }
    DifferenceStays8(ByteStep8(c, data[k]), ByteStep8(c, x), tail);
  }

  lemma {:induction false} ZeroStays8(n: nat)
    ensures Bits8(0, n) == 0
  {
    if n > 0 {
      ZeroStays8(n - 1);
    }
  }

  /** Data followed by its checksum leaves no remainder. */
  lemma AppendedCrcVanishes8(data: seq<bv8>)
    ensures Crc8(data + [Crc8(data)]) == 0
  {
    hide Bits8, XorByte;
    var c := Crc8(data);
    ResidueAdds8(0xFF, data, [c]);
    ResidueOne8(c, c);
    XorItself(c);
    ZeroStays8(8);
  }

  /** Eight bits of division without recursion. */
  function Octet8(c: bv8): bv8 {
    Bit8(Bit8(Bit8(Bit8(Bit8(Bit8(Bit8(Bit8(c))))))))
  }

  lemma OctetIs8(c: bv8, b: bv8)
    ensures ByteStep8(c, b) == Octet8(XorByte(c, b))
  {
    hide Bit8, XorByte;
    var x := XorByte(c, b);
    assert Bits8(x, 2) == Bit8(Bits8(x, 1)) == Bit8(Bit8(x));
    assert Bits8(x, 4) == Bit8(Bits8(x, 3)) == Bit8(Bit8(Bits8(x, 2)));
    assert Bits8(x, 6) == Bit8(Bits8(x, 5)) == Bit8(Bit8(Bits8(x, 4)));
    assert Bits8(x, 8) == Bit8(Bits8(x, 7)) == Bit8(Bit8(Bits8(x, 6)));
  }

  lemma Octets8()
    ensures Octet8(XorByte(0xFF, 0x31)) == 0x58
    ensures Octet8(XorByte(0x58, 0x32)) == 0x60
    ensures Octet8(XorByte(0x60, 0x33)) == 0x2D
    ensures Octet8(XorByte(0x2D, 0x34)) == 0xCB
    ensures Octet8(XorByte(0xCB, 0x35)) == 0x9D
    ensures Octet8(XorByte(0x9D, 0x36)) == 0x16
    ensures Octet8(XorByte(0x16, 0x37)) == 0xB7
    ensures Octet8(XorByte(0xB7, 0x38)) == 0x54
    ensures Octet8(XorByte(0x54, 0x39)) == 0xF7
  {
  }

  lemma Steps8()
    ensures ByteStep8(0xFF, 0x31) == 0x58
    ensures ByteStep8(0x58, 0x32) == 0x60
    ensures ByteStep8(0x60, 0x33) == 0x2D
    ensures ByteStep8(0x2D, 0x34) == 0xCB
    ensures ByteStep8(0xCB, 0x35) == 0x9D
    ensures ByteStep8(0x9D, 0x36) == 0x16
    ensures ByteStep8(0x16, 0x37) == 0xB7
    ensures ByteStep8(0xB7, 0x38) == 0x54
    ensures ByteStep8(0x54, 0x39) == 0xF7
  {
    hide ByteStep8, Octet8, XorByte;
    Octets8();
    OctetIs8(0xFF, 0x31);
    OctetIs8(0x58, 0x32);
    OctetIs8(0x60, 0x33);
    OctetIs8(0x2D, 0x34);
    OctetIs8(0xCB, 0x35);
    OctetIs8(0x9D, 0x36);
    OctetIs8(0x16, 0x37);
    OctetIs8(0xB7, 0x38);
    OctetIs8(0x54, 0x39);
  }

  /** The check value the source gives, of the digits 1 to 9 as characters. */
  lemma Check8()
    ensures Crc8([0x31, 0x32, 0x33, 0x34, 0x35, 0x36, 0x37, 0x38, 0x39]) == 0xF7
  {
    hide ByteStep8;
    var d := [0x31, 0x32, 0x33, 0x34, 0x35, 0x36, 0x37, 0x38, 0x39];
    Steps8();
    assert d[..1][..0] == d[..0] && Residue8(0xFF, d[..1]) == 0x58;
    assert d[..2][..1] == d[..1] && Residue8(0xFF, d[..2]) == 0x60;
    assert d[..3][..2] == d[..2] && Residue8(0xFF, d[..3]) == 0x2D;
    assert d[..4][..3] == d[..3] && Residue8(0xFF, d[..4]) == 0xCB;
    assert d[..5][..4] == d[..4] && Residue8(0xFF, d[..5]) == 0x9D;
    assert d[..6][..5] == d[..5] && Residue8(0xFF, d[..6]) == 0x16;
    assert d[..7][..6] == d[..6] && Residue8(0xFF, d[..7]) == 0xB7;
    assert d[..8][..7] == d[..7] && Residue8(0xFF, d[..8]) == 0x54;
    assert d[..9][..8] == d[..8] && Residue8(0xFF, d[..9]) == 0xF7;
    assert d[..9] == d;
  }

  predicate Has(b: bv8, mask: bv8) {
    b & mask != 0
  }

  /** An odd number of bits is set. */
  predicate OddBits(b: bv8) {
    (((Has(b, 0x01) != Has(b, 0x02)) != (Has(b, 0x04) != Has(b, 0x08)))
     != ((Has(b, 0x10) != Has(b, 0x20)) != (Has(b, 0x40) != Has(b, 0x80))))
  }

  predicate OddBitsIn(data: seq<bv8>) {
    data != [] && OddBitsIn(data[..|data| - 1]) != OddBits(data[|data| - 1])
  }

  lemma OddBitsXor(a: bv8, b: bv8)
    ensures OddBits(XorByte(a, b)) <==> OddBits(a) != OddBits(b)
  {
    hide Has, XorByte;
    HasXor(a, b);
  }

  lemma HasXor(a: bv8, b: bv8)
    ensures Has(XorByte(a, b), 0x01) <==> Has(a, 0x01) != Has(b, 0x01)
    ensures Has(XorByte(a, b), 0x02) <==> Has(a, 0x02) != Has(b, 0x02)
    ensures Has(XorByte(a, b), 0x04) <==> Has(a, 0x04) != Has(b, 0x04)
    ensures Has(XorByte(a, b), 0x08) <==> Has(a, 0x08) != Has(b, 0x08)
    ensures Has(XorByte(a, b), 0x10) <==> Has(a, 0x10) != Has(b, 0x10)
    ensures Has(XorByte(a, b), 0x20) <==> Has(a, 0x20) != Has(b, 0x20)
    ensures Has(XorByte(a, b), 0x40) <==> Has(a, 0x40) != Has(b, 0x40)
    ensures Has(XorByte(a, b), 0x80) <==> Has(a, 0x80) != Has(b, 0x80)
  {
  }

  lemma BitKeepsParity(c: bv8)
    ensures OddBits(Bit8(c)) == OddBits(c)
  {
  }

  lemma {:induction false} BitsKeepParity(c: bv8, n: nat)
    ensures OddBits(Bits8(c, n)) == OddBits(c)
  {
    hide OddBits, Bit8;
    if n > 0 {
      BitKeepsParity(Bits8(c, n - 1));
      BitsKeepParity(c, n - 1);
    }
  }

  lemma OnesAreEven()
    ensures !OddBits(0xFF)
  {
  }

  /** The checksum has the parity of the data, so a change of an odd number of bits is always seen. */
  lemma {:induction false} ParityKept(data: seq<bv8>)
    ensures OddBits(Crc8(data)) == OddBitsIn(data)
  {
    hide OddBits, Bits8, XorByte;
    if data == [] {
      OnesAreEven();
    } else {
      var n := |data| - 1;
      ParityKept(data[..n]);
      OddBitsXor(Crc8(data[..n]), data[n]);
      BitsKeepParity(XorByte(Crc8(data[..n]), data[n]), 8);
    }
  }
}
