/** The two-page flash log of drivers/storage.cpp as values: records, program steps, crashes,
    recovery and page swaps. */
module FlashLog {
  import opened Common
  import opened Crc
  import opened CrcPairs

  /** Eight bytes of flash: a block (value, parameter, checksum) or a header (magic, epoch, checksum). */
  datatype Rec = Rec(word: bv32, half: bv16, sum: bv16)

  /** A parameter number. */
  datatype Param = Param(id: bv16)

  const ERASED := Rec(0xFFFF_FFFF, 0xFFFF, 0xFFFF)

  /** One 16 KiB page: cell 0 is the header, the other 2047 cells are blocks. */
  const CELLS := 2048
  type Page = seq<Rec>

  const MAGIC: bv32 := 0x4752_5453

  /** The six data bytes of a record, little-endian. */
  function DataBytes(word: bv32, half: bv16): (s: seq<bv8>)
    ensures |s| == 6
  {
    [(word & 0xFF) as bv8, ((word >> 8) & 0xFF) as bv8, ((word >> 16) & 0xFF) as bv8, (word >> 24) as bv8,
     Low(half), High(half)]
  }

  function Widened(b: bv8): bv16 {
    b as bv16
  }

  /** The 8-bit checksum, widened to the 16-bit field. */
  function Sum(word: bv32, half: bv16): bv16 {
    Widened(Crc8(DataBytes(word, half)))
  }

  predicate Good(r: Rec) {
    Sum(r.word, r.half) == r.sum
  }

  function Sealed(word: bv32, half: bv16): Rec {
    Rec(word, half, Sum(word, half))
  }

  /** An 8-bit checksum never fills the erased field. */
  lemma SumNotErased(word: bv32, half: bv16)
    ensures Sum(word, half) != 0xFFFF
  {
  }

  lemma WidenedTells(a: bv8, b: bv8)
    ensures Widened(a) == Widened(b) <==> a == b
  {
  }

  /** A good record with any one of its six data bytes changed is not good. */
  lemma OneByteBad(r: Rec, s: Rec, k: nat, x: bv8)
    requires Good(r) && r.sum == s.sum && k < 6 && x != DataBytes(r.word, r.half)[k]
    requires DataBytes(s.word, s.half) == DataBytes(r.word, r.half)[k := x]
    ensures !Good(s)
  {
    hide DataBytes, Crc8, Widened;
    var d := DataBytes(r.word, r.half);
    ByteIsSeen8(d, k, x);
    WidenedTells(Crc8(d), Crc8(d[k := x]));
  }

  /** Nor is it with an odd number of its 48 data bits changed. */
  lemma OddChangeBad(r: Rec, s: Rec)
    requires Good(r) && r.sum == s.sum
    requires OddBitsIn(DataBytes(r.word, r.half)) != OddBitsIn(DataBytes(s.word, s.half))
    ensures !Good(s)
  {
    hide DataBytes, Crc8, Widened, OddBits, OddBitsIn;
    ParityKept(DataBytes(r.word, r.half));
    ParityKept(DataBytes(s.word, s.half));
    WidenedTells(Crc8(DataBytes(r.word, r.half)), Crc8(DataBytes(s.word, s.half)));
  }

  /** Nor with any two bits of different data bytes turned over. */
  lemma TwoBitsBad(r: Rec, s: Rec, k: nat, i: nat, l: nat, j: nat)
    requires Good(r) && r.sum == s.sum && k < l < 6 && i < 8 && j < 8
    requires DataBytes(s.word, s.half) == TurnedOver(DataBytes(r.word, r.half), k, i, l, j)
    ensures !Good(s)
  {
    hide DataBytes, Crc8, Widened, TurnedOver;
    var d := DataBytes(r.word, r.half);
    TwoBitsSeen8(d, k, i, l, j);
    WidenedTells(Crc8(d), Crc8(TurnedOver(d, k, i, l, j)));
  }

  lemma SevenOctets()
    ensures Octet8(XorByte(0xFF, 7)) == 0x3B
    ensures Octet8(XorByte(0x3B, 0)) == 0x2F
    ensures Octet8(XorByte(0x2F, 0)) == 0xA8
    ensures Octet8(XorByte(0xA8, 0)) == 0x45
    ensures Octet8(XorByte(0x45, 1)) == 0xF9
    ensures Octet8(XorByte(0xF9, 0)) == 0x0A
  {
  }

  lemma SevenSum()
    ensures Crc8([7, 0, 0, 0, 1, 0]) == 0x0A
  {
    hide ByteStep8, Octet8, XorByte;
    var d := [7, 0, 0, 0, 1, 0];
    SevenOctets();
    OctetIs8(0xFF, 7);
    OctetIs8(0x3B, 0);
    OctetIs8(0x2F, 0);
    OctetIs8(0xA8, 0);
    OctetIs8(0x45, 1);
    OctetIs8(0xF9, 0);
    assert d[..1][..0] == d[..0] && Residue8(0xFF, d[..1]) == 0x3B;
    assert d[..2][..1] == d[..1] && Residue8(0xFF, d[..2]) == 0x2F;
    assert d[..3][..2] == d[..2] && Residue8(0xFF, d[..3]) == 0xA8;
    assert d[..4][..3] == d[..3] && Residue8(0xFF, d[..4]) == 0x45;
    assert d[..5][..4] == d[..4] && Residue8(0xFF, d[..5]) == 0xF9;
    assert d[..6][..5] == d[..5] && Residue8(0xFF, d[..6]) == 0x0A;
    assert d[..6] == d;
  }

  lemma TenWidened()
    ensures Widened(0x0A) == 0x0A
  {
  }

  /** Value 7 under parameter 1 is stored with checksum 10, and with its lowest bit lost it is not read. */
  lemma SevenTurnsSix()
    ensures Sum(7, 1) == 0x0A && Good(Sealed(7, 1)) && !Good(Sealed(7, 1).(word := 6))
  {
    hide Crc8, Widened, DataBytes;
    SevenBytes();
    SevenSum();
    TenWidened();
    OneByteBad(Sealed(7, 1), Sealed(7, 1).(word := 6), 0, 6);
  }

  lemma SevenBytes()
    ensures DataBytes(7, 1) == [7, 0, 0, 0, 1, 0] && DataBytes(6, 1) == [6, 0, 0, 0, 1, 0]
    ensures DataBytes(6, 1) == DataBytes(7, 1)[0 := 6]
  {
  }

  // ---- one page -----------------------------------------------------------------------------

  /** The first empty cell from `c` on, or the end of the page. */
  function FreeFrom(p: Page, c: nat): (n: nat)
    requires c <= |p|
    ensures c <= n <= |p| && (n < |p| ==> p[n] == ERASED)
    ensures forall i :: c <= i < n ==> p[i] != ERASED
    decreases |p| - c
  {
    if c == |p| || p[c] == ERASED then c else FreeFrom(p, c + 1)
  }

  function Free(p: Page): nat
    requires |p| == CELLS
  {
    FreeFrom(p, 1)
  }

  /** Blocks used so far form a prefix: everything from the first empty block on is empty. */
  predicate Tidy(p: Page) {
    |p| == CELLS && forall c :: Free(p) <= c < CELLS ==> p[c] == ERASED
  }

  /** What the blocks below cell `n` say, later records overriding earlier ones. */
  function Contents(p: Page, n: nat): map<Param, bv32>
    requires n <= |p|
  {
    if n <= 1 then map[]
    else if Good(p[n - 1]) then Contents(p, n - 1)[Param(p[n - 1].half) := p[n - 1].word]
    else Contents(p, n - 1)
  }

  function Stored(p: Page): map<Param, bv32>
    requires |p| == CELLS
  {
    Contents(p, CELLS)
  }

  /** A parameter never written reads as all ones. */
  function Get(m: map<Param, bv32>, param: bv16): bv32 {
    if Param(param) in m then m[Param(param)] else 0xFFFF_FFFF
  }

  /** The scanning loop of `storage_read` over the cells below `n`. */
  function Scan(p: Page, n: nat, param: bv16): bv32
    requires n <= |p|
  {
    if n <= 1 then 0xFFFF_FFFF
    else if p[n - 1].half == param && Good(p[n - 1]) then p[n - 1].word
    else Scan(p, n - 1, param)
  }

  /** Reading is a lookup in the map of completed writes. */
  lemma {:induction false} ScanIsLookup(p: Page, n: nat, param: bv16)
    requires n <= |p|
    ensures Scan(p, n, param) == Get(Contents(p, n), param)
  {
    if n > 1 {
      ScanIsLookup(p, n - 1, param);
    }
  }

  lemma {:induction false} ContentsOfPrefix(p: Page, q: Page, n: nat)
    requires n <= |p| && n <= |q| && forall c :: 1 <= c < n ==> p[c] == q[c]
    ensures Contents(p, n) == Contents(q, n)
  {
    hide Good;
    if n > 1 {
      ContentsOfPrefix(p, q, n - 1);
    }
  }

  /** Cells without a good record add nothing. */
  lemma {:induction false} ContentsStop(p: Page, n: nat, m: nat)
    requires 1 <= n <= m <= |p| && forall c :: n <= c < m ==> !Good(p[c])
    ensures Contents(p, m) == Contents(p, n)
  {
    hide Good;
    if n < m {
      ContentsStop(p, n, m - 1);
    }
  }

  lemma ErasedNotGood()
    ensures !Good(ERASED)
  {
  }

  // ---- program steps ------------------------------------------------------------------------

  /** One call of the flash library. Programming can only clear bits. */
  datatype Op =
    | ProgramWord(slot: nat, cell: nat, word: bv32)
    | ProgramHalf(slot: nat, cell: nat, half: bv16)
    | ProgramSum(slot: nat, cell: nat, sum: bv16)
    | Erase(slot: nat)

  /** Both pages. */
  type Flash = f: seq<Page> | |f| == 2 && |f[0]| == CELLS && |f[1]| == CELLS
    witness [seq(CELLS, i => ERASED), seq(CELLS, i => ERASED)]

  function AndWord(a: bv32, b: bv32): bv32 { a & b }
  function AndHalf(a: bv16, b: bv16): bv16 { a & b }

  predicate Fits(op: Op) {
    op.slot < 2 && (op.Erase? || op.cell < CELLS)
  }

  function Blank(): (p: Page)
    ensures |p| == CELLS && forall c :: 0 <= c < CELLS ==> p[c] == ERASED
  {
    seq(CELLS, i => ERASED)
  }

  function Step(f: Flash, op: Op): Flash
    requires Fits(op)
  {
    var p := f[op.slot];
    match op
    case ProgramWord(s, c, v) => f[s := p[c := p[c].(word := AndWord(p[c].word, v))]]
    case ProgramHalf(s, c, v) => f[s := p[c := p[c].(half := AndHalf(p[c].half, v))]]
    case ProgramSum(s, c, v) => f[s := p[c := p[c].(sum := AndHalf(p[c].sum, v))]]
    case Erase(s) => f[s := Blank()]
  }

  predicate AllFit(ops: seq<Op>) {
    forall i :: 0 <= i < |ops| ==> Fits(ops[i])
  }

  function Perform(f: Flash, ops: seq<Op>): Flash
    requires AllFit(ops)
    decreases ops
  {
    if ops == [] then f else Perform(Step(f, ops[0]), ops[1..])
  }

  lemma {:induction false} PerformAdds(f: Flash, a: seq<Op>, b: seq<Op>)
    requires AllFit(a) && AllFit(b)
    ensures AllFit(a + b) && Perform(f, a + b) == Perform(Perform(f, a), b)
    decreases a
  {
    if a == [] {
      assert a + b == b;
    } else {
      PerformAdds(Step(f, a[0]), a[1..], b);
      assert (a + b)[1..] == a[1..] + b;
    }
  }

  /** Three program calls write one record: value, parameter, checksum. */
  function RecordOps(slot: nat, cell: nat, r: Rec): (ops: seq<Op>)
    ensures |ops| == 3
  {
    [ProgramWord(slot, cell, r.word), ProgramHalf(slot, cell, r.half), ProgramSum(slot, cell, r.sum)]
  }

  /** An empty cell after the first `k` calls that write `r` into it. */
  function Partial(r: Rec, k: nat): Rec {
    Rec(if k >= 1 then r.word else ERASED.word, if k >= 2 then r.half else ERASED.half,
        if k >= 3 then r.sum else ERASED.sum)
  }

  /** The value comes first, then the parameter, then the checksum; what is missing reads as ones. */
  lemma PartialIs(r: Rec)
    ensures Partial(r, 0) == ERASED == Rec(0xFFFF_FFFF, 0xFFFF, 0xFFFF)
    ensures Partial(r, 1) == Rec(r.word, 0xFFFF, 0xFFFF)
    ensures Partial(r, 2) == Rec(r.word, r.half, 0xFFFF)
    ensures Partial(r, 3) == r
  {
  }

  lemma OnesKeep(a: bv32, b: bv16)
    ensures AndWord(0xFFFF_FFFF, a) == a && AndHalf(0xFFFF, b) == b
  {
  }

  function WithCell(f: Flash, slot: nat, cell: nat, r: Rec): Flash
    requires slot < 2 && cell < CELLS
  {
    f[slot := f[slot][cell := r]]
  }

  lemma WithCellTwice(f: Flash, slot: nat, cell: nat, a: Rec, b: Rec)
    requires slot < 2 && cell < CELLS
    ensures WithCell(WithCell(f, slot, cell, a), slot, cell, b) == WithCell(f, slot, cell, b)
    ensures WithCell(f, slot, cell, a)[slot][cell] == a
    ensures WithCell(f, slot, cell, f[slot][cell]) == f
  {
    assert f[slot][cell := a][cell := b] == f[slot][cell := b];
    assert f[slot][cell := f[slot][cell]] == f[slot];
  }

  lemma StepCell(f: Flash, op: Op)
    requires Fits(op) && !op.Erase?
    ensures var r := f[op.slot][op.cell];
      Step(f, op) == WithCell(f, op.slot, op.cell,
        match op
        case ProgramWord(_, _, v) => r.(word := AndWord(r.word, v))
        case ProgramHalf(_, _, v) => r.(half := AndHalf(r.half, v))
        case ProgramSum(_, _, v) => r.(sum := AndHalf(r.sum, v)))
  {
  }

  /** The first `k` calls that write `r` into an empty cell. */
  lemma {:induction false} RecordSteps(f: Flash, slot: nat, cell: nat, r: Rec, k: nat)
    requires slot < 2 && cell < CELLS && f[slot][cell] == ERASED && k <= 3
    ensures AllFit(RecordOps(slot, cell, r)[..k])
    ensures Perform(f, RecordOps(slot, cell, r)[..k]) == WithCell(f, slot, cell, Partial(r, k))
  {
    hide AndWord, AndHalf, Perform, Step, WithCell;
    var ops := RecordOps(slot, cell, r);
    if k == 0 {
      PerformNone(f);
      assert ops[..0] == [];
      WithCellTwice(f, slot, cell, r, r);
    } else {
      RecordSteps(f, slot, cell, r, k - 1);
      var g := WithCell(f, slot, cell, Partial(r, k - 1));
      assert ops[..k] == ops[..k - 1] + [ops[k - 1]];
      PerformAdds(f, ops[..k - 1], [ops[k - 1]]);
      PerformOne(g, ops[k - 1]);
      StepCell(g, ops[k - 1]);
      OnesKeep(r.word, r.half);
      OnesKeep(r.word, r.sum);
      WithCellTwice(f, slot, cell, Partial(r, k - 1), Partial(r, k));
    }
  }

  lemma PerformNone(f: Flash)
    ensures Perform(f, []) == f
  {
  }

  lemma PerformOne(f: Flash, op: Op)
    requires Fits(op)
    ensures AllFit([op]) && Perform(f, [op]) == Step(f, op)
  {
  }
}
