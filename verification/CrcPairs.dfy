/** Two wrong bits in 127 are always seen by the 8-bit checksum, as the source says. */
module CrcPairs {
  import opened Crc

  // ---- linearity ------------------------------------------------------------------------------

  predicate TopBit(c: bv8) {
    c & 0x80 != 0
  }

  function Left(c: bv8): bv8 {
    c << 1
  }

  lemma BitIs(c: bv8)
    ensures Bit8(c) == if TopBit(c) then XorByte(Left(c), 0x31) else Left(c)
  {
  }

  lemma TopXor(a: bv8, b: bv8)
    ensures TopBit(XorByte(a, b)) <==> TopBit(a) != TopBit(b)
  {
  }

  lemma LeftXor(a: bv8, b: bv8)
    ensures Left(XorByte(a, b)) == XorByte(Left(a), Left(b))
  {
  }

  lemma XorGroups(a: bv8, b: bv8, c: bv8)
    ensures XorByte(XorByte(a, b), c) == XorByte(a, XorByte(b, c))
    ensures XorByte(XorByte(a, b), c) == XorByte(XorByte(a, c), b)
  {
  }

  lemma XorTwice(a: bv8, b: bv8, p: bv8)
    ensures XorByte(XorByte(a, p), XorByte(b, p)) == XorByte(a, b)
  {
  }

  /** Division of a sum is the sum of the divisions. */
  lemma BitLinear(a: bv8, b: bv8)
    ensures Bit8(XorByte(a, b)) == XorByte(Bit8(a), Bit8(b))
  {
    hide Bit8, XorByte, TopBit, Left;
    BitIs(a);
    BitIs(b);
    BitIs(XorByte(a, b));
    TopXor(a, b);
    LeftXor(a, b);
    XorGroups(Left(a), Left(b), 0x31);
    XorGroups(Left(a), 0x31, Left(b));
    XorTwice(Left(a), Left(b), 0x31);
  }

  lemma {:induction false} BitsLinear(a: bv8, b: bv8, n: nat)
    ensures Bits8(XorByte(a, b), n) == XorByte(Bits8(a, n), Bits8(b, n))
  {
    hide Bit8, XorByte;
    if n > 0 {
      BitsLinear(a, b, n - 1);
      BitLinear(Bits8(a, n - 1), Bits8(b, n - 1));
    }
  }

  lemma {:induction false} BitsAdd(c: bv8, m: nat, n: nat)
    ensures Bits8(c, m + n) == Bits8(Bits8(c, m), n)
  {
    hide Bit8;
    if n > 0 {
      BitsAdd(c, m, n - 1);
    }
  }

  /** A difference in the remainder goes its own way, whatever the data. */
  lemma {:induction false} DifferenceMoves(c: bv8, e: bv8, data: seq<bv8>)
    ensures Residue8(XorByte(c, e), data) == XorByte(Residue8(c, data), Bits8(e, 8 * |data|))
  {
    hide Bits8, XorByte;
    if data == [] {
      NoBits(e);
    } else {
      var n := |data| - 1;
      var r, d, b := Residue8(c, data[..n]), Bits8(e, 8 * n), data[n];
      DifferenceMoves(c, e, data[..n]);
      XorGroups(r, d, b);
      BitsLinear(XorByte(r, b), d, 8);
      BitsAdd(e, 8 * n, 8);
    }
  }

  lemma NoBits(e: bv8)
    ensures Bits8(e, 0) == e
  {
  }

  // ---- the remainders of the powers of two ----------------------------------------------------

  /** The first six remainders after `c` are not 1. */
  predicate Opens(c: bv8) {
    var d := Bit8(Bit8(Bit8(c)));
    && Bit8(c) != 1 && Bit8(Bit8(c)) != 1 && d != 1
    && Bit8(d) != 1 && Bit8(Bit8(d)) != 1 && Bit8(Bit8(Bit8(d))) != 1
  }

  /** `next` comes eight bits after `c`, and the seven remainders between are not 1. */
  predicate Round(c: bv8, next: bv8) {
    Opens(c) && Bit8(Bit8(Bit8(Bit8(Bit8(Bit8(Bit8(c))))))) != 1 && Octet8(c) == next
  }

  lemma Rounds0()
    ensures Round(0x01, 0x31)
    ensures Round(0x31, 0xF4)
    ensures Round(0xF4, 0x46)
    ensures Round(0x46, 0x9B)
  {
  }

  lemma Rounds1()
    ensures Round(0x9B, 0xD3)
    ensures Round(0xD3, 0x57)
    ensures Round(0x57, 0xE9)
    ensures Round(0xE9, 0x49)
  {
  }

  lemma Rounds2()
    ensures Round(0x49, 0xB5)
    ensures Round(0xB5, 0x4A)
    ensures Round(0x4A, 0xE6)
    ensures Round(0xE6, 0x67)
  {
  }

  lemma Rounds3()
    ensures Round(0x67, 0x2C)
    ensures Round(0x2C, 0xFB)
    ensures Round(0xFB, 0x68)
    ensures Opens(0x68)
  {
  }

  lemma Rounds()
    ensures Round(0x01, 0x31) && Round(0x31, 0xF4) && Round(0xF4, 0x46) && Round(0x46, 0x9B)
    ensures Round(0x9B, 0xD3) && Round(0xD3, 0x57) && Round(0x57, 0xE9) && Round(0xE9, 0x49)
    ensures Round(0x49, 0xB5) && Round(0xB5, 0x4A) && Round(0x4A, 0xE6) && Round(0xE6, 0x67)
    ensures Round(0x67, 0x2C) && Round(0x2C, 0xFB) && Round(0xFB, 0x68)
    ensures Opens(0x68)
  {
    hide Round, Opens;
    Rounds0();
    Rounds1();
    Rounds2();
    Rounds3();
  }

  lemma RoundMeans(c: bv8, next: bv8, r: nat)
    requires r < 8 && if r < 7 then Opens(c) else Round(c, next)
    ensures (r > 0 ==> Bits8(c, r) != 1) && Bits8(c, 0) == c && (Round(c, next) ==> Bits8(c, 8) == next)
  {
    hide Bit8;
    assert Bits8(c, 1) == Bit8(c) && Bits8(c, 2) == Bit8(Bits8(c, 1));
    assert Bits8(c, 3) == Bit8(Bits8(c, 2)) && Bits8(c, 4) == Bit8(Bits8(c, 3));
    assert Bits8(c, 5) == Bit8(Bits8(c, 4)) && Bits8(c, 6) == Bit8(Bits8(c, 5));
    assert Bits8(c, 7) == Bit8(Bits8(c, 6)) && Bits8(c, 8) == Bit8(Bits8(c, 7));
    match r { case 0 => case 1 => case 2 => case 3 => case 4 => case 5 => case 6 => case _ => }
  }

  /** The remainder after `8 k` bits of division of 1. */
  function Eighth(k: nat): bv8
    requires k <= 15
  {
    match k
    case 0 => 0x01
    case 1 => 0x31
    case 2 => 0xF4
    case 3 => 0x46
    case 4 => 0x9B
    case 5 => 0xD3
    case 6 => 0x57
    case 7 => 0xE9
    case 8 => 0x49
    case 9 => 0xB5
    case 10 => 0x4A
    case 11 => 0xE6
    case 12 => 0x67
    case 13 => 0x2C
    case 14 => 0xFB
    case _ => 0x68
  }

  lemma EighthRounds(k: nat)
    requires k <= 15
    ensures k < 15 ==> Round(Eighth(k), Eighth(k + 1))
    ensures Opens(Eighth(k)) && (k > 0 ==> Eighth(k) != 1)
  {
    Rounds();
    if k < 15 {
      EighthRound(k);
    }
  }

  lemma EighthRound(k: nat)
    requires k < 15
    ensures Round(Eighth(k), Eighth(k + 1))
  {
    Rounds();
    hide Round;
    match k {
      case 0 => case 1 => case 2 => case 3 => case 4 => case 5 => case 6 => case 7 =>
      case 8 => case 9 => case 10 => case 11 => case 12 => case 13 => case _ =>
    }
  }

  lemma {:induction false} EighthIs(k: nat)
    requires k <= 15
    ensures Bits8(1, 8 * k) == Eighth(k)
  {
    hide Bit8, Round, Opens;
    if k == 0 {
      NoBits(1);
    } else {
      EighthIs(k - 1);
      EighthRounds(k - 1);
      RoundMeans(Eighth(k - 1), Eighth(k), 0);
      BitsAdd(1, 8 * (k - 1), 8);
    }
  }

  /** No power of two below the 127th leaves 1. */
  lemma NeverOne(n: nat)
    requires 0 < n < 127
    ensures Bits8(1, n) != 1
  {
    hide Bit8, Round, Opens, Eighth, Bits8;
    var k, r := n / 8, n % 8;
    EighthIs(k);
    EighthRounds(k);
    RoundMeans(Eighth(k), if k < 15 then Eighth(k + 1) else 0, r);
    BitsAdd(1, 8 * k, r);
    if r == 0 {
      assert Bits8(Eighth(k), 0) == Eighth(k);
    }
  }

  // ---- two wrong bits ---------------------------------------------------------------------------

  /** Bit `i` of a byte, the highest first. */
  function MaskOf(i: nat): bv8
    requires i < 8
  {
    match i
    case 0 => 0x80 case 1 => 0x40 case 2 => 0x20 case 3 => 0x10
    case 4 => 0x08 case 5 => 0x04 case 6 => 0x02 case _ => 0x01
  }

  lemma MaskShifts()
    ensures Bit8(1) == 2 && Bit8(2) == 4 && Bit8(4) == 8 && Bit8(8) == 0x10
    ensures Bit8(0x10) == 0x20 && Bit8(0x20) == 0x40 && Bit8(0x40) == 0x80
  {
  }

  lemma {:induction false} MaskIsPower(i: nat)
    requires i < 8
    ensures MaskOf(i) == Bits8(1, 7 - i)
    decreases 7 - i
  {
    MaskShifts();
    hide Bit8;
    if i < 7 {
      MaskIsPower(i + 1);
    }
  }

  /** Two bits of different bytes, less than 127 bits apart, do not cancel. */
  lemma MasksApart(i: nat, j: nat, bytes: nat)
    requires i < 8 && j < 8 && bytes > 0 && 8 * bytes + j - i < 127
    ensures Bits8(MaskOf(i), 8 * bytes) != MaskOf(j)
  {
    hide Bit8, Bits8, MaskOf;
    var n := 8 * bytes + j - i;
    MaskIsPower(i);
    MaskIsPower(j);
    BitsAdd(1, 7 - i, 8 * bytes);
    BitsAdd(1, n, 7 - j);
    NeverOne(n);
    assert 7 - i + 8 * bytes == n + (7 - j);
    if Bits8(Bits8(1, n), 7 - j) == Bits8(1, 7 - j) {
      BitsInjective8(Bits8(1, n), 1, 7 - j);
    }
  }

  lemma XorDiffers(a: bv8, b: bv8)
    ensures XorByte(a, b) == a <==> b == 0
    ensures XorByte(a, b) == 0 <==> a == b
  {
  }

  /** Data with bit `i` of byte `k` and bit `j` of byte `l` turned over. */
  function TurnedOver(data: seq<bv8>, k: nat, i: nat, l: nat, j: nat): seq<bv8>
    requires k < l < |data| && i < 8 && j < 8
  {
    data[k := XorByte(data[k], MaskOf(i))][l := XorByte(data[l], MaskOf(j))]
  }

  /** The remainders behind byte `l` still differ. */
  lemma TwoBitsMove(c: bv8, a: bv8, b: bv8, between: seq<bv8>, i: nat, j: nat)
    requires i < 8 && j < 8 && 8 * (|between| + 1) + j - i < 127
    ensures Residue8(c, [a] + between + [b])
      != Residue8(c, [XorByte(a, MaskOf(i))] + between + [XorByte(b, MaskOf(j))])
  {
    hide Bits8, XorByte, MaskOf;
    var x, y, m := MaskOf(i), MaskOf(j), |between|;
    ThreeParts(c, a, between, b);
    ThreeParts(c, XorByte(a, x), between, XorByte(b, y));
    var u := XorByte(c, a);
    XorGroups(c, a, x);
    BitsLinear(u, x, 8);
    DifferenceMoves(Bits8(u, 8), Bits8(x, 8), between);
    BitsAdd(x, 8, 8 * m);
    var r, e := Residue8(Bits8(u, 8), between), Bits8(x, 8 * (m + 1));
    MasksApart(i, j, m + 1);
    XorGroups(r, e, b);
    XorFour(r, e, b, y);
    BitsLinear(XorByte(r, b), XorByte(e, y), 8);
    XorDiffers(e, y);
    if Bits8(XorByte(r, b), 8) == Bits8(XorByte(XorByte(r, b), XorByte(e, y)), 8) {
      BitsInjective8(XorByte(r, b), XorByte(XorByte(r, b), XorByte(e, y)), 8);
      XorDiffers(XorByte(r, b), XorByte(e, y));
    }
  }

  lemma XorFour(r: bv8, e: bv8, b: bv8, y: bv8)
    ensures XorByte(XorByte(r, e), XorByte(b, y)) == XorByte(XorByte(r, b), XorByte(e, y))
  {
    hide XorByte;
    XorGroups(r, e, XorByte(b, y));
    XorGroups(e, b, y);
    XorGroups(r, b, XorByte(e, y));
    XorGroups(b, e, y);
    XorSwaps(e, b);
  }

  lemma ThreeParts(c: bv8, a: bv8, between: seq<bv8>, b: bv8)
    ensures Residue8(c, [a] + between + [b])
      == Bits8(XorByte(Residue8(Bits8(XorByte(c, a), 8), between), b), 8)
  {
    hide Bits8, XorByte;
    ResidueAdds8(c, [a] + between, [b]);
    ResidueAdds8(c, [a], between);
    ResidueOne8(c, a);
    ResidueOne8(Residue8(c, [a] + between), b);
  }

  /** Two bits of different bytes turned over, less than 127 apart, always change the checksum. Two bits of one byte
      do by `ByteIsSeen8`. */
  lemma TwoBitsSeen8(data: seq<bv8>, k: nat, i: nat, l: nat, j: nat)
    requires k < l < |data| && i < 8 && j < 8 && (8 * l + j) - (8 * k + i) < 127
    ensures Crc8(data) != Crc8(TurnedOver(data, k, i, l, j))
  {
    hide Bits8, XorByte, MaskOf, Residue8;
    var head, between, tail := data[..k], data[k + 1..l], data[l + 1..];
    var a, b, x, y := data[k], data[l], XorByte(data[k], MaskOf(i)), XorByte(data[l], MaskOf(j));
    assert data == head + ([a] + between + [b]) + tail;
    assert TurnedOver(data, k, i, l, j) == head + ([x] + between + [y]) + tail;
    ResidueAdds8(0xFF, head + ([a] + between + [b]), tail);
    ResidueAdds8(0xFF, head + ([x] + between + [y]), tail);
    ResidueAdds8(0xFF, head, [a] + between + [b]);
    ResidueAdds8(0xFF, head, [x] + between + [y]);
    var c := Residue8(0xFF, head);
    TwoBitsMove(c, a, b, between, i, j);
    DifferenceStays8(Residue8(c, [a] + between + [b]), Residue8(c, [x] + between + [y]), tail);
  }
}
