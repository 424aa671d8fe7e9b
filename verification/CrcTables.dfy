/** The two lookup tables of lib/crc.c, sixteen entries a row, and what their entries are. */
module CrcTables {

  import opened Common
  import opened CrcBits

  const HI_0: seq<bv8> := [0x00, 0xC1, 0x81, 0x40, 0x01, 0xC0, 0x80, 0x41, 0x01, 0xC0, 0x80, 0x41, 0x00, 0xC1, 0x81, 0x40]
  const HI_1: seq<bv8> := [0x01, 0xC0, 0x80, 0x41, 0x00, 0xC1, 0x81, 0x40, 0x00, 0xC1, 0x81, 0x40, 0x01, 0xC0, 0x80, 0x41]
  const HI_2: seq<bv8> := [0x01, 0xC0, 0x80, 0x41, 0x00, 0xC1, 0x81, 0x40, 0x00, 0xC1, 0x81, 0x40, 0x01, 0xC0, 0x80, 0x41]
  const HI_3: seq<bv8> := [0x00, 0xC1, 0x81, 0x40, 0x01, 0xC0, 0x80, 0x41, 0x01, 0xC0, 0x80, 0x41, 0x00, 0xC1, 0x81, 0x40]
  const HI_4: seq<bv8> := [0x01, 0xC0, 0x80, 0x41, 0x00, 0xC1, 0x81, 0x40, 0x00, 0xC1, 0x81, 0x40, 0x01, 0xC0, 0x80, 0x41]
  const HI_5: seq<bv8> := [0x00, 0xC1, 0x81, 0x40, 0x01, 0xC0, 0x80, 0x41, 0x01, 0xC0, 0x80, 0x41, 0x00, 0xC1, 0x81, 0x40]
  const HI_6: seq<bv8> := [0x00, 0xC1, 0x81, 0x40, 0x01, 0xC0, 0x80, 0x41, 0x01, 0xC0, 0x80, 0x41, 0x00, 0xC1, 0x81, 0x40]
  const HI_7: seq<bv8> := [0x01, 0xC0, 0x80, 0x41, 0x00, 0xC1, 0x81, 0x40, 0x00, 0xC1, 0x81, 0x40, 0x01, 0xC0, 0x80, 0x41]
  const HI_8: seq<bv8> := [0x01, 0xC0, 0x80, 0x41, 0x00, 0xC1, 0x81, 0x40, 0x00, 0xC1, 0x81, 0x40, 0x01, 0xC0, 0x80, 0x41]
  const HI_9: seq<bv8> := [0x00, 0xC1, 0x81, 0x40, 0x01, 0xC0, 0x80, 0x41, 0x01, 0xC0, 0x80, 0x41, 0x00, 0xC1, 0x81, 0x40]
  const HI_A: seq<bv8> := [0x00, 0xC1, 0x81, 0x40, 0x01, 0xC0, 0x80, 0x41, 0x01, 0xC0, 0x80, 0x41, 0x00, 0xC1, 0x81, 0x40]
  const HI_B: seq<bv8> := [0x01, 0xC0, 0x80, 0x41, 0x00, 0xC1, 0x81, 0x40, 0x00, 0xC1, 0x81, 0x40, 0x01, 0xC0, 0x80, 0x41]
  const HI_C: seq<bv8> := [0x00, 0xC1, 0x81, 0x40, 0x01, 0xC0, 0x80, 0x41, 0x01, 0xC0, 0x80, 0x41, 0x00, 0xC1, 0x81, 0x40]
  const HI_D: seq<bv8> := [0x01, 0xC0, 0x80, 0x41, 0x00, 0xC1, 0x81, 0x40, 0x00, 0xC1, 0x81, 0x40, 0x01, 0xC0, 0x80, 0x41]
  const HI_E: seq<bv8> := [0x01, 0xC0, 0x80, 0x41, 0x00, 0xC1, 0x81, 0x40, 0x00, 0xC1, 0x81, 0x40, 0x01, 0xC0, 0x80, 0x41]
  const HI_F: seq<bv8> := [0x00, 0xC1, 0x81, 0x40, 0x01, 0xC0, 0x80, 0x41, 0x01, 0xC0, 0x80, 0x41, 0x00, 0xC1, 0x81, 0x40]

  const LO_0: seq<bv8> := [0x00, 0xC0, 0xC1, 0x01, 0xC3, 0x03, 0x02, 0xC2, 0xC6, 0x06, 0x07, 0xC7, 0x05, 0xC5, 0xC4, 0x04]
  const LO_1: seq<bv8> := [0xCC, 0x0C, 0x0D, 0xCD, 0x0F, 0xCF, 0xCE, 0x0E, 0x0A, 0xCA, 0xCB, 0x0B, 0xC9, 0x09, 0x08, 0xC8]
  const LO_2: seq<bv8> := [0xD8, 0x18, 0x19, 0xD9, 0x1B, 0xDB, 0xDA, 0x1A, 0x1E, 0xDE, 0xDF, 0x1F, 0xDD, 0x1D, 0x1C, 0xDC]
  const LO_3: seq<bv8> := [0x14, 0xD4, 0xD5, 0x15, 0xD7, 0x17, 0x16, 0xD6, 0xD2, 0x12, 0x13, 0xD3, 0x11, 0xD1, 0xD0, 0x10]
  const LO_4: seq<bv8> := [0xF0, 0x30, 0x31, 0xF1, 0x33, 0xF3, 0xF2, 0x32, 0x36, 0xF6, 0xF7, 0x37, 0xF5, 0x35, 0x34, 0xF4]
  const LO_5: seq<bv8> := [0x3C, 0xFC, 0xFD, 0x3D, 0xFF, 0x3F, 0x3E, 0xFE, 0xFA, 0x3A, 0x3B, 0xFB, 0x39, 0xF9, 0xF8, 0x38]
  const LO_6: seq<bv8> := [0x28, 0xE8, 0xE9, 0x29, 0xEB, 0x2B, 0x2A, 0xEA, 0xEE, 0x2E, 0x2F, 0xEF, 0x2D, 0xED, 0xEC, 0x2C]
  const LO_7: seq<bv8> := [0xE4, 0x24, 0x25, 0xE5, 0x27, 0xE7, 0xE6, 0x26, 0x22, 0xE2, 0xE3, 0x23, 0xE1, 0x21, 0x20, 0xE0]
  const LO_8: seq<bv8> := [0xA0, 0x60, 0x61, 0xA1, 0x63, 0xA3, 0xA2, 0x62, 0x66, 0xA6, 0xA7, 0x67, 0xA5, 0x65, 0x64, 0xA4]
  const LO_9: seq<bv8> := [0x6C, 0xAC, 0xAD, 0x6D, 0xAF, 0x6F, 0x6E, 0xAE, 0xAA, 0x6A, 0x6B, 0xAB, 0x69, 0xA9, 0xA8, 0x68]
  const LO_A: seq<bv8> := [0x78, 0xB8, 0xB9, 0x79, 0xBB, 0x7B, 0x7A, 0xBA, 0xBE, 0x7E, 0x7F, 0xBF, 0x7D, 0xBD, 0xBC, 0x7C]
  const LO_B: seq<bv8> := [0xB4, 0x74, 0x75, 0xB5, 0x77, 0xB7, 0xB6, 0x76, 0x72, 0xB2, 0xB3, 0x73, 0xB1, 0x71, 0x70, 0xB0]
  const LO_C: seq<bv8> := [0x50, 0x90, 0x91, 0x51, 0x93, 0x53, 0x52, 0x92, 0x96, 0x56, 0x57, 0x97, 0x55, 0x95, 0x94, 0x54]
  const LO_D: seq<bv8> := [0x9C, 0x5C, 0x5D, 0x9D, 0x5F, 0x9F, 0x9E, 0x5E, 0x5A, 0x9A, 0x9B, 0x5B, 0x99, 0x59, 0x58, 0x98]
  const LO_E: seq<bv8> := [0x88, 0x48, 0x49, 0x89, 0x4B, 0x8B, 0x8A, 0x4A, 0x4E, 0x8E, 0x8F, 0x4F, 0x8D, 0x4D, 0x4C, 0x8C]
  const LO_F: seq<bv8> := [0x44, 0x84, 0x85, 0x45, 0x87, 0x47, 0x46, 0x86, 0x82, 0x42, 0x43, 0x83, 0x41, 0x81, 0x80, 0x40]

  function HiRow(row: bv8): (s: seq<bv8>)
    ensures |s| == 16
  {
    if row == 0x0 then HI_0 else
    if row == 0x1 then HI_1 else
    if row == 0x2 then HI_2 else
    if row == 0x3 then HI_3 else
    if row == 0x4 then HI_4 else
    if row == 0x5 then HI_5 else
    if row == 0x6 then HI_6 else
    if row == 0x7 then HI_7 else
    if row == 0x8 then HI_8 else
    if row == 0x9 then HI_9 else
    if row == 0xA then HI_A else
    if row == 0xB then HI_B else
    if row == 0xC then HI_C else
    if row == 0xD then HI_D else
    if row == 0xE then HI_E else
    HI_F
  }

  function LoRow(row: bv8): (s: seq<bv8>)
    ensures |s| == 16
  {
    if row == 0x0 then LO_0 else
    if row == 0x1 then LO_1 else
    if row == 0x2 then LO_2 else
    if row == 0x3 then LO_3 else
    if row == 0x4 then LO_4 else
    if row == 0x5 then LO_5 else
    if row == 0x6 then LO_6 else
    if row == 0x7 then LO_7 else
    if row == 0x8 then LO_8 else
    if row == 0x9 then LO_9 else
    if row == 0xA then LO_A else
    if row == 0xB then LO_B else
    if row == 0xC then LO_C else
    if row == 0xD then LO_D else
    if row == 0xE then LO_E else
    LO_F
  }

  /** An entry of `aucCRCHi`. */
  function TableHi(i: bv8): bv8 {
    HiRow(i >> 4)[i & 15]
  }

  /** An entry of `aucCRCLo`. */
  function TableLo(i: bv8): bv8 {
    LoRow(i >> 4)[i & 15]
  }

  /** The pair of entries at `i`: the tables are named after the bytes they are xored out of, not into. */
  function Entry(i: bv8): bv16 {
    Word(TableLo(i), TableHi(i))
  }

  lemma Row0(i: bv8)
    requires i >> 4 == 0x0
    ensures Word(LO_0[i & 15], HI_0[i & 15]) == EightSteps(Wide(i))
  {
    assert i == 0x00 | (i & 15);
  }

  lemma Row1(i: bv8)
    requires i >> 4 == 0x1
    ensures Word(LO_1[i & 15], HI_1[i & 15]) == EightSteps(Wide(i))
  {
    assert i == 0x10 | (i & 15);
  }

  lemma Row2(i: bv8)
    requires i >> 4 == 0x2
    ensures Word(LO_2[i & 15], HI_2[i & 15]) == EightSteps(Wide(i))
  {
    assert i == 0x20 | (i & 15);
  }

  lemma Row3(i: bv8)
    requires i >> 4 == 0x3
    ensures Word(LO_3[i & 15], HI_3[i & 15]) == EightSteps(Wide(i))
  {
    assert i == 0x30 | (i & 15);
  }

  lemma Row4(i: bv8)
    requires i >> 4 == 0x4
    ensures Word(LO_4[i & 15], HI_4[i & 15]) == EightSteps(Wide(i))
  {
    assert i == 0x40 | (i & 15);
  }

  lemma Row5(i: bv8)
    requires i >> 4 == 0x5
    ensures Word(LO_5[i & 15], HI_5[i & 15]) == EightSteps(Wide(i))
  {
    assert i == 0x50 | (i & 15);
  }

  lemma Row6(i: bv8)
    requires i >> 4 == 0x6
    ensures Word(LO_6[i & 15], HI_6[i & 15]) == EightSteps(Wide(i))
  {
    assert i == 0x60 | (i & 15);
  }

  lemma Row7(i: bv8)
    requires i >> 4 == 0x7
    ensures Word(LO_7[i & 15], HI_7[i & 15]) == EightSteps(Wide(i))
  {
    assert i == 0x70 | (i & 15);
  }

  lemma Row8(i: bv8)
    requires i >> 4 == 0x8
    ensures Word(LO_8[i & 15], HI_8[i & 15]) == EightSteps(Wide(i))
  {
    assert i == 0x80 | (i & 15);
  }

  lemma Row9(i: bv8)
    requires i >> 4 == 0x9
    ensures Word(LO_9[i & 15], HI_9[i & 15]) == EightSteps(Wide(i))
  {
    assert i == 0x90 | (i & 15);
  }

  lemma RowA(i: bv8)
    requires i >> 4 == 0xA
    ensures Word(LO_A[i & 15], HI_A[i & 15]) == EightSteps(Wide(i))
  {
    assert i == 0xA0 | (i & 15);
  }

  lemma RowB(i: bv8)
    requires i >> 4 == 0xB
    ensures Word(LO_B[i & 15], HI_B[i & 15]) == EightSteps(Wide(i))
  {
    assert i == 0xB0 | (i & 15);
  }

  lemma RowC(i: bv8)
    requires i >> 4 == 0xC
    ensures Word(LO_C[i & 15], HI_C[i & 15]) == EightSteps(Wide(i))
  {
    assert i == 0xC0 | (i & 15);
  }

  lemma RowD(i: bv8)
    requires i >> 4 == 0xD
    ensures Word(LO_D[i & 15], HI_D[i & 15]) == EightSteps(Wide(i))
  {
    assert i == 0xD0 | (i & 15);
  }

  lemma RowE(i: bv8)
    requires i >> 4 == 0xE
    ensures Word(LO_E[i & 15], HI_E[i & 15]) == EightSteps(Wide(i))
  {
    assert i == 0xE0 | (i & 15);
  }

  lemma RowF(i: bv8)
    requires i >> 4 == 0xF
    ensures Word(LO_F[i & 15], HI_F[i & 15]) == EightSteps(Wide(i))
  {
    assert i == 0xF0 | (i & 15);
  }

  /** Every pair of entries is the remainder of its index. */
  lemma TablesDivide(i: bv8)
    ensures Entry(i) == EightSteps(Wide(i))
  {
    hide Word, EightSteps, Wide;
    match i >> 4
    case 0x0 => Row0(i);
    case 0x1 => Row1(i);
    case 0x2 => Row2(i);
    case 0x3 => Row3(i);
    case 0x4 => Row4(i);
    case 0x5 => Row5(i);
    case 0x6 => Row6(i);
    case 0x7 => Row7(i);
    case 0x8 => Row8(i);
    case 0x9 => Row9(i);
    case 0xA => RowA(i);
    case 0xB => RowB(i);
    case 0xC => RowC(i);
    case 0xD => RowD(i);
    case 0xE => RowE(i);
    case _ => RowF(i);
  }
}
