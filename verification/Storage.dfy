/** drivers/storage.cpp over two byte arrays that the flash library programs and erases in place. */
module Storage {
  import opened BitNumbers
  import opened Common
  import opened Crc
  import opened FlashLog
  import opened FlashRecovery
  import opened Octets

  const PAGE_SIZE := 0x4000

  // ---- bytes and records --------------------------------------------------------------------

  function Word32(a: bv8, b: bv8, c: bv8, d: bv8): bv32 {
    (a as bv32) | (b as bv32 << 8) | (c as bv32 << 16) | (d as bv32 << 24)
  }

  function RecAt(b: seq<bv8>, o: nat): Rec
    requires o + 8 <= |b|
  {
    Rec(Word32(b[o], b[o + 1], b[o + 2], b[o + 3]), Word(b[o + 5], b[o + 4]), Word(b[o + 7], b[o + 6]))
  }

  /** The page an array of bytes holds. */
  function View(b: seq<bv8>): (p: Page)
    requires |b| == PAGE_SIZE
    ensures |p| == CELLS && forall c :: 0 <= c < CELLS ==> p[c] == RecAt(b, 8 * c)
  {
    seq(CELLS, c requires 0 <= c < CELLS => RecAt(b, 8 * c))
  }

  function AndByte(a: bv8, b: bv8): bv8 { a & b }

  function Byte0(v: bv32): bv8 { (v & 0xFF) as bv8 }
  function Byte1(v: bv32): bv8 { ((v >> 8) & 0xFF) as bv8 }
  function Byte2(v: bv32): bv8 { ((v >> 16) & 0xFF) as bv8 }
  function Byte3(v: bv32): bv8 { (v >> 24) as bv8 }

  lemma WordAnds(a: bv8, b: bv8, c: bv8, d: bv8, v: bv32)
    ensures Word32(AndByte(a, Byte0(v)), AndByte(b, Byte1(v)), AndByte(c, Byte2(v)), AndByte(d, Byte3(v)))
         == AndWord(Word32(a, b, c, d), v)
  {
  }

  lemma HalfAnds(a: bv8, b: bv8, v: bv16)
    ensures Word(AndByte(b, High(v)), AndByte(a, Low(v))) == AndHalf(Word(b, a), v)
  {
  }

  lemma BytesBack(a: bv8, b: bv8, c: bv8, d: bv8, e: bv8, f: bv8)
    ensures DataBytes(Word32(a, b, c, d), Word(f, e)) == [a, b, c, d, e, f]
  {
  }

  /** A block is erased exactly when its eight bytes are all ones. */
  lemma ErasedBytes(b: seq<bv8>, o: nat)
    requires o + 8 <= |b|
    ensures RecAt(b, o) == ERASED <==> forall j :: o <= j < o + 8 ==> b[j] == 0xFF
  {
  }

  /** Changing the bytes of one cell changes one record. */
  lemma ViewChanges(b: seq<bv8>, d: seq<bv8>, cell: nat)
    requires |b| == |d| == PAGE_SIZE && cell < CELLS
    requires forall j :: 0 <= j < PAGE_SIZE && !(8 * cell <= j < 8 * cell + 8) ==> d[j] == b[j]
    ensures View(d) == View(b)[cell := RecAt(d, 8 * cell)]
  {
  }

  /** The bytes the driver checksums are those the record stands for. */
  lemma SummedBytes(b: seq<bv8>, o: nat)
    requires o + 8 <= |b|
    ensures DataBytes(RecAt(b, o).word, RecAt(b, o).half) == b[o..o + 6]
  {
    hide Word32, Word, DataBytes;
    BytesBack(b[o], b[o + 1], b[o + 2], b[o + 3], b[o + 4], b[o + 5]);
  }

  lemma ErasedView(b: seq<bv8>)
    requires |b| == PAGE_SIZE && forall j :: 0 <= j < PAGE_SIZE ==> b[j] == 0xFF
    ensures View(b) == Blank()
  {
  }

  // ---- the layout of a page in numbers --------------------------------------------------------

  function Value32(w: bv32): nat {
    w as nat
  }

  lemma Word32Number(a: bv8, b: bv8, c: bv8, d: bv8)
    ensures Value32(Word32(a, b, c, d))
      == FromByte(a) + 0x100 * FromByte(b) + 0x1_0000 * FromByte(c) + 0x100_0000 * FromByte(d)
  {
  }

  /** Block `c` of a page is the eight bytes at 8c: value, parameter and checksum, each with its lowest byte first. */
  lemma BlockLayout(b: seq<bv8>, c: nat)
    requires |b| == 16384 && c < 2048
    ensures var r, o := View(b)[c], 8 * c;
      && Value32(r.word) == FromByte(b[o]) + 0x100 * FromByte(b[o + 1]) + 0x1_0000 * FromByte(b[o + 2])
           + 0x100_0000 * FromByte(b[o + 3])
      && Value16(r.half) == FromByte(b[o + 4]) + 0x100 * FromByte(b[o + 5])
      && Value16(r.sum) == FromByte(b[o + 6]) + 0x100 * FromByte(b[o + 7])
  {
    hide Word32, Word, Value32, Value16, FromByte;
    var o := 8 * c;
    Word32Number(b[o], b[o + 1], b[o + 2], b[o + 3]);
    WordNumber(b[o + 5], b[o + 4]);
    WordNumber(b[o + 7], b[o + 6]);
  }

  /** A header begins with the characters STRG. */
  lemma HeaderBegins(epoch: int)
    ensures var h := Header(epoch); DataBytes(h.word, h.half)[..4] == [0x53, 0x54, 0x52, 0x47]
  {
    hide EpochField, Sum, Low, High;
  }

  function CallbackRecs(saves: seq<(bv16, bv32)>): (recs: seq<Rec>)
    ensures |recs| == |saves|
  {
    seq(|saves|, i requires 0 <= i < |saves| => Sealed(saves[i].1, saves[i].0))
  }

  // ---- the driver ---------------------------------------------------------------------------

  class Store {
    const page0: array<bv8>
    const page1: array<bv8>
    var activeSlot: nat

    /** What the 'save all' callback would save, when one is set. */
    var saveCallback: seq<(bv16, bv32)>

    /** Every flash call made so far, in order. */
    ghost var calls: seq<Op>

    ghost predicate Valid()
      reads this
    {
      page0 != page1 && page0.Length == PAGE_SIZE && page1.Length == PAGE_SIZE && activeSlot < 2
    }

    function Bytes(slot: nat): array<bv8> {
      if slot == 0 then page0 else page1
    }

    ghost function Image(): Flash
      requires Valid()
      reads this, page0, page1
    {
      [View(page0[..]), View(page1[..])]
    }

    /** A flash of any content. */
    constructor (a: seq<bv8>, b: seq<bv8>)
      requires |a| == PAGE_SIZE && |b| == PAGE_SIZE
      ensures Valid() && fresh(page0) && fresh(page1) && calls == [] && saveCallback == []
      ensures Image() == [View(a), View(b)]
    {
      page0 := new bv8[PAGE_SIZE](i requires 0 <= i < PAGE_SIZE => a[i]);
      page1 := new bv8[PAGE_SIZE](i requires 0 <= i < PAGE_SIZE => b[i]);
      activeSlot, saveCallback, calls := 0, [], [];
      new;
      assert page0[..] == a && page1[..] == b;
    }

    /** `FLASH_ProgramWord` at the value or the magic of a cell. */
    method ProgramWord(slot: nat, cell: nat, v: bv32)
      requires Valid() && slot < 2 && cell < CELLS
      modifies Bytes(slot), this`calls
      ensures calls == old(calls) + [Op.ProgramWord(slot, cell, v)]
      ensures Image() == Step(old(Image()), Op.ProgramWord(slot, cell, v))
    {
      hide AndByte, AndWord, Word32, Word, Byte0, Byte1, Byte2, Byte3, View;
      var o := 8 * cell;
      var p := Bytes(slot);
      ghost var b := p[..];
      WordAnds(p[o], p[o + 1], p[o + 2], p[o + 3], v);
      p[o], p[o + 1], p[o + 2], p[o + 3] :=
        AndByte(p[o], Byte0(v)), AndByte(p[o + 1], Byte1(v)), AndByte(p[o + 2], Byte2(v)), AndByte(p[o + 3], Byte3(v));
      calls := calls + [Op.ProgramWord(slot, cell, v)];
      ViewChanges(b, p[..], cell);
      assert RecAt(p[..], o) == RecAt(b, o).(word := AndWord(RecAt(b, o).word, v));
    }

    /** `FLASH_ProgramHalfWord` at the parameter or the epoch of a cell. */
    method ProgramHalf(slot: nat, cell: nat, v: bv16)
      requires Valid() && slot < 2 && cell < CELLS
      modifies Bytes(slot), this`calls
      ensures calls == old(calls) + [Op.ProgramHalf(slot, cell, v)]
      ensures Image() == Step(old(Image()), Op.ProgramHalf(slot, cell, v))
    {
      hide AndByte, AndHalf, Word32, Word, Low, High, View;
      var o := 8 * cell;
      var p := Bytes(slot);
      ghost var b := p[..];
      HalfAnds(p[o + 4], p[o + 5], v);
      p[o + 4], p[o + 5] := AndByte(p[o + 4], Low(v)), AndByte(p[o + 5], High(v));
      calls := calls + [Op.ProgramHalf(slot, cell, v)];
      ViewChanges(b, p[..], cell);
      assert RecAt(p[..], o) == RecAt(b, o).(half := AndHalf(RecAt(b, o).half, v));
    }

    /** `FLASH_ProgramHalfWord` at the checksum of a cell. */
    method ProgramSum(slot: nat, cell: nat, v: bv16)
      requires Valid() && slot < 2 && cell < CELLS
      modifies Bytes(slot), this`calls
      ensures calls == old(calls) + [Op.ProgramSum(slot, cell, v)]
      ensures Image() == Step(old(Image()), Op.ProgramSum(slot, cell, v))
    {
      hide AndByte, AndHalf, Word32, Word, Low, High, View;
      var o := 8 * cell;
      var p := Bytes(slot);
      ghost var b := p[..];
      HalfAnds(p[o + 6], p[o + 7], v);
      p[o + 6], p[o + 7] := AndByte(p[o + 6], Low(v)), AndByte(p[o + 7], High(v));
      calls := calls + [Op.ProgramSum(slot, cell, v)];
      ViewChanges(b, p[..], cell);
      assert RecAt(p[..], o) == RecAt(b, o).(sum := AndHalf(RecAt(b, o).sum, v));
    }

    /** `FLASH_EraseSector`. */
    method EraseSector(slot: nat)
      requires Valid() && slot < 2
      modifies Bytes(slot), this`calls
      ensures calls == old(calls) + [Erase(slot)]
      ensures Image() == Step(old(Image()), Erase(slot))
    {
      hide View, Blank;
      ghost var f := Image();
      var p := Bytes(slot);
      forall j | 0 <= j < PAGE_SIZE { p[j] := 0xFF; }
      calls := calls + [Erase(slot)];
      ErasedView(p[..]);
      assert Image()[slot] == Blank() && Image()[1 - slot] == f[1 - slot];
    }

    /** `is_blk_empty`. */
    method IsBlockEmpty(slot: nat, cell: nat) returns (empty: bool)
      requires Valid() && slot < 2 && cell < CELLS
      ensures empty == (Image()[slot][cell] == ERASED)
    {
      hide Word32, Word;
      var p := Bytes(slot);
      ErasedBytes(p[..], 8 * cell);
      for i := 0 to 8
        invariant forall j :: 8 * cell <= j < 8 * cell + i ==> p[j] == 0xFF
      {
        if p[8 * cell + i] != 0xFF {
          return false;
        }
      }
      return true;
    }

    /** The checksum test both readers make. */
    method IsGood(slot: nat, cell: nat) returns (good: bool)
      requires Valid() && slot < 2 && cell < CELLS
      ensures good == Good(Image()[slot][cell])
    {
      hide Word32, Word, Crc8, DataBytes, Widened;
      var p := Bytes(slot);
      var o := 8 * cell;
      SummedBytes(p[..], o);
      var data := p[o..o + 6];
      assert data == p[..][o..o + 6];
      var crc := Crc8Dallas(data);
      good := Widened(crc) == Word(p[o + 7], p[o + 6]);
    }

    /** `header_read`. */
    method HeaderRead(slot: nat) returns (epoch: int)
      requires Valid() && slot < 2
      ensures epoch == Epoch(Image()[slot])
    {
      hide Good, Word32;
      var good := IsGood(slot, 0);
      epoch := if good then Signed(Word(Bytes(slot)[5], Bytes(slot)[4])) else -1;
    }

    /** `header_write`. */
    method HeaderWrite(slot: nat, epoch: int)
      requires Valid() && slot < 2
      modifies Bytes(slot), this`calls
      ensures calls == old(calls) + RecordOps(slot, 0, Header(epoch))
      ensures AllFit(RecordOps(slot, 0, Header(epoch)))
      ensures Image() == Perform(old(Image()), RecordOps(slot, 0, Header(epoch)))
    {
      WriteRecord(slot, 0, MAGIC, EpochField(epoch));
    }

    /** The three program calls that write a record with its checksum. */
    method WriteRecord(slot: nat, cell: nat, word: bv32, half: bv16)
      requires Valid() && slot < 2 && cell < CELLS
      modifies Bytes(slot), this`calls
      ensures calls == old(calls) + RecordOps(slot, cell, Sealed(word, half))
      ensures AllFit(RecordOps(slot, cell, Sealed(word, half)))
      ensures Image() == Perform(old(Image()), RecordOps(slot, cell, Sealed(word, half)))
    {
      hide Step, DataBytes, Crc8, View;
      ghost var f := Image();
      var crc := Crc8Dallas(DataBytes(word, half));
      ProgramWord(slot, cell, word);
      ProgramHalf(slot, cell, half);
      ProgramSum(slot, cell, crc as bv16);
      ThreeSteps(f, slot, cell, Sealed(word, half));
    }

    /** The fields of a block. */
    method HalfAt(slot: nat, cell: nat) returns (half: bv16)
      requires Valid() && slot < 2 && cell < CELLS
      ensures half == Image()[slot][cell].half
    {
      hide Word32, Word;
      half := Word(Bytes(slot)[8 * cell + 5], Bytes(slot)[8 * cell + 4]);
    }

    method WordAt(slot: nat, cell: nat) returns (word: bv32)
      requires Valid() && slot < 2 && cell < CELLS
      ensures word == Image()[slot][cell].word
    {
      hide Word32, Word;
      var p, o := Bytes(slot), 8 * cell;
      word := Word32(p[o], p[o + 1], p[o + 2], p[o + 3]);
    }

    /** `storage_read`: the value of the last completed write of the parameter on the active page. */
    method Read(param: bv16) returns (value: bv32)
      requires Valid()
      ensures value == Get(Stored(Image()[activeSlot]), param)
    {
      hide View, Good;
      value := 0xFFFF_FFFF;
      for c := 1 to CELLS
        invariant value == Scan(Image()[activeSlot], c, param)
      {
        var half := HalfAt(activeSlot, c);
        if half == param {
          var good := IsGood(activeSlot, c);
          if good {
            value := WordAt(activeSlot, c);
          }
        }
      }
      ScanIsLookup(Image()[activeSlot], CELLS, param);
    }

    /** The change to the next page and the first record on it, before the callback runs. */
    method SwapPages(param: bv16, value: bv32)
      requires Valid() && Free(Image()[activeSlot]) == CELLS
      modifies this, page0, page1
      ensures Valid() && activeSlot == 1 - old(activeSlot) && saveCallback == old(saveCallback)
      ensures calls == old(calls) + SaveOps(old(Image()), old(activeSlot), Sealed(value, param), [])
      ensures AllFit(SaveOps(old(Image()), old(activeSlot), Sealed(value, param), []))
      ensures Image() == Perform(old(Image()), SaveOps(old(Image()), old(activeSlot), Sealed(value, param), []))
    {
      hide Step, View, Perform, Header, Sealed, RecordOps, Epoch;
      ghost var f, a := Image(), activeSlot;
      var header := HeaderRead(activeSlot);
      activeSlot := activeSlot + 1;
      if activeSlot >= 2 {
        activeSlot := 0;
      }
      EraseSector(activeSlot);
      HeaderWrite(activeSlot, header + 1);
      WriteRecord(activeSlot, 1, value, param);
      ghost var b, r := 1 - a, Sealed(value, param);
      PerformOne(f, Erase(b));
      FillOne(b, 1, r);
      PerformAdds(f, [Erase(b)], RecordOps(b, 0, Header(Epoch(f[a]) + 1)));
      PerformAdds(f, [Erase(b)] + RecordOps(b, 0, Header(Epoch(f[a]) + 1)), RecordOps(b, 1, r));
      assert [r] + [] == [r];
    }

    /** The scan for the first empty block; the end of the page when there is none. */
    method FindEmpty() returns (cell: nat)
      requires Valid()
      ensures cell == Free(Image()[activeSlot])
    {
      hide View;
      cell := 1;
      while cell < CELLS
        invariant 1 <= cell <= CELLS
        invariant forall i :: 1 <= i < cell ==> Image()[activeSlot][i] != ERASED
      {
        var empty := IsBlockEmpty(activeSlot, cell);
        if empty {
          break;
        }
        cell := cell + 1;
      }
      FreeIs(Image()[activeSlot], cell);
    }

    /** `storage_write`: exactly the specified flash calls, in order. A callback that would save more
        than 2046 parameters never lets a swap end. */
    method Write(param: bv16, value: bv32)
      requires Valid() && (Free(Image()[activeSlot]) == CELLS ==> |saveCallback| <= CELLS - 2)
      modifies this, page0, page1
      ensures Valid() && saveCallback == old(saveCallback)
      ensures activeSlot == if Free(old(Image()[activeSlot])) == CELLS then 1 - old(activeSlot) else old(activeSlot)
      ensures AllFit(SaveOps(old(Image()), old(activeSlot), Sealed(value, param), CallbackRecs(saveCallback)))
      ensures calls
        == old(calls) + SaveOps(old(Image()), old(activeSlot), Sealed(value, param), CallbackRecs(saveCallback))
      ensures Image() == Perform(old(Image()),
        SaveOps(old(Image()), old(activeSlot), Sealed(value, param), CallbackRecs(saveCallback)))
      decreases if Free(Image()[activeSlot]) == CELLS then 1 else 0, 1
    {
      hide View, Perform, Step, Header, Sealed, RecordOps, Epoch, Filled, FillOps, Partial;
      ghost var f, a, r := Image(), activeSlot, Sealed(value, param);
      var cell := FindEmpty();
      if cell < CELLS {
        FillOne(a, cell, r);
        WriteRecord(activeSlot, cell, value, param);
      } else {
        SwapPages(param, value);
        SwapFilled(f, a, r, []);
        assert [r] + [] == [r];
        SaveAll(f, a, param, value);
        SwapOpsSplit(f, a, r, CallbackRecs(saveCallback));
        SwapFilled(f, a, r, CallbackRecs(saveCallback));
      }
    }

    /** The callback: it saves every parameter through `storage_write` again. */
    method SaveAll(ghost f: Flash, ghost a: nat, ghost param: bv16, ghost value: bv32)
      requires Valid() && a < 2 && Free(f[a]) == CELLS && activeSlot == 1 - a && |saveCallback| <= CELLS - 2
      requires Image() == f[1 - a := Filled(Fresh(Epoch(f[a]) + 1, 3), 1, [Sealed(value, param)], 3)]
      modifies this, page0, page1
      ensures Valid() && saveCallback == old(saveCallback) && activeSlot == 1 - a
      ensures calls == old(calls) + FillOps(1 - a, 2, CallbackRecs(saveCallback))
      ensures Image() == f[1 - a := Filled(Fresh(Epoch(f[a]) + 1, 3), 1,
        [Sealed(value, param)] + CallbackRecs(saveCallback), 3 * (1 + |saveCallback|))]
      decreases 1, 0
    {
      hide View, Perform, Step, Sealed, Epoch, Filled, FillOps, Fresh, Free;
      ghost var b, p, r := 1 - a, Fresh(Epoch(f[a]) + 1, 3), Sealed(value, param);
      ghost var recs := CallbackRecs(saveCallback);
      assert [r] + recs[..0] == [r] && recs[..0] == [];
      FillNone(b, 2);
      for i := 0 to |saveCallback|
        invariant Valid() && activeSlot == b && saveCallback == old(saveCallback)
        invariant calls == old(calls) + FillOps(b, 2, recs[..i])
        invariant Image() == f[b := Filled(p, 1, [r] + recs[..i], 3 * (1 + i))]
      {
        PageHasRoom(Epoch(f[a]) + 1, r, saveCallback, i, param, value);
        OneLonger(r, recs, i);
        FillOpsAdd(b, 2, recs[..i], recs[i]);
        OneMore(f, b, p, [r] + recs[..i], recs[i], recs);
        Write(saveCallback[i].0, saveCallback[i].1);
      }
      assert recs[..|saveCallback|] == recs;
    }

    /** `storage_init`. */
    method Init(callback: seq<(bv16, bv32)>)
      requires Valid()
      modifies this, page0, page1
      ensures Valid() && saveCallback == callback && activeSlot == Select(old(Image()))
      ensures calls == old(calls) + InitOps(old(Image())) && AllFit(InitOps(old(Image())))
      ensures Image() == Perform(old(Image()), InitOps(old(Image())))
    {
      hide View, Perform, Step, Header, Sealed, RecordOps, Epoch;
      ghost var f := Image();
      var epoch0 := HeaderRead(0);
      var epoch1 := HeaderRead(1);
      if epoch0 == -1 && epoch1 == -1 {
        activeSlot := 0;
        EraseSector(0);
        HeaderWrite(0, 0);
        PerformOne(f, Erase(0));
        PerformAdds(f, [Erase(0)], RecordOps(0, 0, Header(0)));
      } else {
        PerformNone(f);
        var cur := epoch0;
        activeSlot := 0;
        if cur < epoch1 {
          cur := epoch1;
          activeSlot := 1;
        }
      }
      saveCallback := callback;
    }
  }

  lemma OneLonger(r: Rec, recs: seq<Rec>, i: nat)
    requires i < |recs|
    ensures recs[..i + 1] == recs[..i] + [recs[i]] && [r] + recs[..i + 1] == [r] + recs[..i] + [recs[i]]
  {
  }

  /** One more of the records the callback saves: the page has room, so no page is swapped. */
  lemma OneMore(f: Flash, b: nat, p: Page, done: seq<Rec>, r: Rec, resaved: seq<Rec>)
    requires b < 2 && |p| == CELLS && 1 <= |done| && 1 + |done| < CELLS
    requires var q := Filled(p, 1, done, 3 * |done|); Free(q) == 1 + |done| && ErasedFrom(q, 1 + |done|)
    ensures var g: Flash := f[b := Filled(p, 1, done, 3 * |done|)];
      var ops := SaveOps(g, b, r, resaved);
      && ops == FillOps(b, 1 + |done|, [r]) && AllFit(ops)
      && Perform(g, ops) == f[b := Filled(p, 1, done + [r], 3 * |done| + 3)]
  {
    hide Perform, Filled, FillOps, ErasedFrom, Free;
    PageMore(f, b, Filled(p, 1, done, 3 * |done|), 1 + |done|, r);
    FilledAdd(p, 1, done, r);
  }

  lemma PageMore(f: Flash, b: nat, q: Page, n: nat, r: Rec)
    requires b < 2 && |q| == CELLS && n < CELLS && ErasedFrom(q, n)
    ensures AllFit(FillOps(b, n, [r])) && Perform(f[b := q], FillOps(b, n, [r])) == f[b := Filled(q, n, [r], 3)]
  {
    hide Perform, Filled, FillOps, ErasedFrom;
    var g := f[b := q];
    FillSteps(g, b, n, [r], 3);
    assert FillOps(b, n, [r])[..3] == FillOps(b, n, [r]);
    assert g[b := Filled(q, n, [r], 3)] == f[b := Filled(q, n, [r], 3)];
  }

  lemma SwapOpsSplit(f: Flash, a: nat, r: Rec, recs: seq<Rec>)
    requires a < 2 && Free(f[a]) == CELLS
    ensures SaveOps(f, a, r, recs) == SaveOps(f, a, r, []) + FillOps(1 - a, 2, recs)
  {
  }

  lemma FillNone(slot: nat, cell: nat)
    ensures FillOps(slot, cell, []) == []
  {
  }

  lemma FillOne(slot: nat, cell: nat, r: Rec)
    ensures FillOps(slot, cell, [r]) == RecordOps(slot, cell, r)
  {
  }

  /** What a whole swap leaves, as pages. */
  lemma SwapFilled(f: Flash, a: nat, r: Rec, recs: seq<Rec>)
    requires a < 2 && Free(f[a]) == CELLS && |recs| <= CELLS - 2
    ensures AllFit(SaveOps(f, a, r, recs))
    ensures Perform(f, SaveOps(f, a, r, recs))
      == f[1 - a := Filled(Fresh(Epoch(f[a]) + 1, 3), 1, [r] + recs, 3 * (1 + |recs|))]
  {
    hide Perform, Filled, Partial, Header, Epoch;
    var ops := SaveOps(f, a, r, recs);
    SwapSteps(f, a, r, recs, |ops|);
    assert ops[..|ops|] == ops;
  }

  lemma PageHasRoom(e: int, r: Rec, saves: seq<(bv16, bv32)>, i: nat, param: bv16, value: bv32)
    requires i < |saves| <= CELLS - 2 && r == Sealed(value, param)
    ensures Free(Filled(Fresh(e, 3), 1, [r] + CallbackRecs(saves)[..i], 3 * (1 + i))) == 2 + i
    ensures ErasedFrom(Filled(Fresh(e, 3), 1, [r] + CallbackRecs(saves)[..i], 3 * (1 + i)), 2 + i)
  {
    hide Filled, Stored, Partial, Sum;
    var done := [r] + CallbackRecs(saves)[..i];
    assert AllGood(done);
    hide Good, Sealed, Header;
    var p := Fresh(e, 3);
    FreeIs(p, 1);
    FilledStores(p, done, 3 * (1 + i));
  }

  lemma ThreeSteps(f: Flash, slot: nat, cell: nat, r: Rec)
    requires slot < 2 && cell < CELLS
    ensures AllFit(RecordOps(slot, cell, r))
    ensures Perform(f, RecordOps(slot, cell, r))
      == Step(Step(Step(f, Op.ProgramWord(slot, cell, r.word)), Op.ProgramHalf(slot, cell, r.half)),
           Op.ProgramSum(slot, cell, r.sum))
  {
    hide Step;
    var ops := RecordOps(slot, cell, r);
    PerformOne(f, ops[0]);
    var f1 := Step(f, ops[0]);
    PerformOne(f1, ops[1]);
    PerformOne(Step(f1, ops[1]), ops[2]);
    PerformAdds(f, [ops[0]], [ops[1]]);
    PerformAdds(f, [ops[0]] + [ops[1]], [ops[2]]);
    assert ops == [ops[0]] + [ops[1]] + [ops[2]];
  }
}
