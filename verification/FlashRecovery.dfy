/** What a save, a page swap, a crash at any program step and a restart do to the stored parameters. */
module FlashRecovery {
  import opened BitNumbers
  import opened Common
  import opened FlashLog
  import opened Octets

  // ---- filling consecutive cells ------------------------------------------------------------

  /** The calls that write `recs` from `cell` on. */
  function FillOps(slot: nat, cell: nat, recs: seq<Rec>): (ops: seq<Op>)
    ensures |ops| == 3 * |recs|
    decreases recs
  {
    if recs == [] then [] else RecordOps(slot, cell, recs[0]) + FillOps(slot, cell + 1, recs[1..])
  }

  /** The page after the first `k` of those calls. */
  function Filled(p: Page, cell: nat, recs: seq<Rec>, k: nat): (q: Page)
    requires cell + |recs| <= |p| && k <= 3 * |recs|
    ensures |q| == |p|
    decreases recs
  {
    if recs == [] then p
    else if k < 3 then p[cell := Partial(recs[0], k)]
    else Filled(p[cell := recs[0]], cell + 1, recs[1..], k - 3)
  }

  predicate ErasedFrom(p: Page, cell: nat) {
    forall c :: cell <= c < |p| ==> p[c] == ERASED
  }

  lemma {:induction false} FillFits(slot: nat, cell: nat, recs: seq<Rec>)
    requires slot < 2 && cell + |recs| <= CELLS
    ensures AllFit(FillOps(slot, cell, recs))
    decreases recs
  {
    if recs != [] {
      FillFits(slot, cell + 1, recs[1..]);
    }
  }

  lemma {:induction false} FillSteps(f: Flash, slot: nat, cell: nat, recs: seq<Rec>, k: nat)
    requires slot < 2 && cell + |recs| <= CELLS && ErasedFrom(f[slot], cell) && k <= 3 * |recs|
    ensures AllFit(FillOps(slot, cell, recs))
    ensures Perform(f, FillOps(slot, cell, recs)[..k]) == f[slot := Filled(f[slot], cell, recs, k)]
    decreases recs
  {
    hide Partial, Perform, RecordOps;
    FillFits(slot, cell, recs);
    var ops := FillOps(slot, cell, recs);
    if recs == [] {
      assert ops[..k] == [] && f[slot := f[slot]] == f;
      PerformNone(f);
    } else {
      var first, rest := RecordOps(slot, cell, recs[0]), FillOps(slot, cell + 1, recs[1..]);
      if k < 3 {
        assert ops[..k] == first[..k];
        RecordSteps(f, slot, cell, recs[0], k);
      } else {
        assert ops[..k] == first[..3] + rest[..k - 3];
        RecordSteps(f, slot, cell, recs[0], 3);
        PartialFull(recs[0]);
        var g := f[slot := f[slot][cell := recs[0]]];
        FillSteps(g, slot, cell + 1, recs[1..], k - 3);
        assert AllFit(rest[..k - 3]);
        PerformAdds(f, first[..3], rest[..k - 3]);
      }
    }
  }

  lemma {:induction false} FillOpsAdd(slot: nat, cell: nat, recs: seq<Rec>, r: Rec)
    ensures FillOps(slot, cell, recs + [r]) == FillOps(slot, cell, recs) + FillOps(slot, cell + |recs|, [r])
    decreases recs
  {
    hide RecordOps;
    if recs == [] {
      assert recs + [r] == [r];
    } else {
      FillOpsAdd(slot, cell + 1, recs[1..], r);
      assert (recs + [r])[1..] == recs[1..] + [r];
      var first, mid := RecordOps(slot, cell, recs[0]), FillOps(slot, cell + 1, recs[1..]);
      var last := FillOps(slot, cell + |recs|, [r]);
      assert first + (mid + last) == first + mid + last;
    }
  }

  lemma {:induction false} FilledAdd(p: Page, cell: nat, recs: seq<Rec>, r: Rec)
    requires cell + |recs| + 1 <= |p|
    ensures Filled(p, cell, recs + [r], 3 * |recs| + 3)
         == Filled(Filled(p, cell, recs, 3 * |recs|), cell + |recs|, [r], 3)
    decreases recs
  {
    hide Partial;
    if recs == [] {
      assert recs + [r] == [r];
    } else {
      FilledAdd(p[cell := recs[0]], cell + 1, recs[1..], r);
      assert (recs + [r])[1..] == recs[1..] + [r];
    }
  }

  lemma PartialFull(r: Rec)
    ensures Partial(r, 3) == r
  {
  }

  // ---- what a save does to one page ---------------------------------------------------------

  function Overlay(m: map<Param, bv32>, recs: seq<Rec>): map<Param, bv32>
    decreases recs
  {
    if recs == [] then m else Overlay(m[Param(recs[0].half) := recs[0].word], recs[1..])
  }

  predicate AllGood(recs: seq<Rec>) {
    forall i :: 0 <= i < |recs| ==> Good(recs[i])
  }

  lemma GoodNotErased(r: Rec)
    requires Good(r)
    ensures r != ERASED
  {
  }

  lemma FreeIs(p: Page, n: nat)
    requires |p| == CELLS && 1 <= n <= CELLS && (n < CELLS ==> p[n] == ERASED)
    requires forall c :: 1 <= c < n ==> p[c] != ERASED
    ensures Free(p) == n
  {
  }

  /** A completed record extends the used prefix and overrides its parameter. */
  lemma AppendCommits(p: Page, r: Rec)
    requires Tidy(p) && Free(p) < CELLS && Good(r)
    ensures var q := p[Free(p) := r];
      Tidy(q) && Free(q) == Free(p) + 1 && Stored(q) == Stored(p)[Param(r.half) := r.word]
  {
    hide Good;
    var n := Free(p);
    var q := p[n := r];
    GoodNotErased(r);
    FreeIs(q, n + 1);
    assert forall c :: n + 1 <= c < CELLS ==> q[c] == ERASED;
    ErasedNotGood();
    ContentsOfPrefix(p, q, n);
    ContentsStop(p, n, CELLS);
    ContentsStop(q, n + 1, CELLS);
  }

  /** Until its checksum is programmed a record does not exist, and the page stays in order. */
  lemma AppendCrashes(p: Page, r: Rec, k: nat)
    requires Tidy(p) && Free(p) < CELLS && k < 3
    ensures var q := p[Free(p) := Partial(r, k)];
      Tidy(q) && Free(q) <= Free(p) + 1 && Stored(q) == Stored(p)
  {
    var n := Free(p);
    var torn := Partial(r, k);
    var q := p[n := torn];
    SumNotErased(torn.word, torn.half);
    hide Sum;
    ErasedNotGood();
    assert !Good(torn) && !Good(ERASED);
    hide Good, Partial;
    FreeIs(q, if torn == ERASED then n else n + 1);
    ContentsOfPrefix(p, q, n);
    ContentsStop(p, n, CELLS);
    ContentsStop(q, n, CELLS);
  }

  /** After `k` calls the records whose third call was made are stored, and nothing else changed. */
  lemma {:induction false} FilledStores(p: Page, recs: seq<Rec>, k: nat)
    requires Tidy(p) && Free(p) + |recs| <= CELLS && AllGood(recs) && k <= 3 * |recs|
    ensures var q := Filled(p, Free(p), recs, k);
      && Tidy(q) && q[0] == p[0] && Stored(q) == Overlay(Stored(p), recs[..k / 3])
      && (k == 3 * |recs| ==> Free(q) == Free(p) + |recs|)
    decreases recs
  {
    hide Good, Partial, Stored, Tidy;
    assert |p| == CELLS by { TidySize(p); }
    if recs == [] {
    } else if k < 3 {
      AppendCrashes(p, recs[0], k);
      assert recs[..k / 3] == [];
    } else {
      AppendCommits(p, recs[0]);
      FilledStores(p[Free(p) := recs[0]], recs[1..], k - 3);
      assert recs[..k / 3][1..] == recs[1..][..(k - 3) / 3];
    }
  }

  lemma TidySize(p: Page)
    requires Tidy(p)
    ensures |p| == CELLS
  {
  }

  // ---- headers and selection ----------------------------------------------------------------

  /** The number in a 16-bit field. */
  function Unsigned(h: bv16): (u: nat)
    ensures u < 0x1_0000
  {
    FromByte(High(h)) * 256 + FromByte(Low(h))
  }

  function Signed(h: bv16): int {
    if Unsigned(h) < 0x8000 then Unsigned(h) else Unsigned(h) - 0x1_0000
  }

  /** The 16-bit field a computed epoch is truncated to. */
  function EpochField(e: int): bv16 {
    var u := e % 0x1_0000;
    Word(ToByte(u / 256), ToByte(u % 256))
  }

  /** The field holds the epoch in two's complement. */
  lemma EpochNumber(e: int)
    ensures Value16(EpochField(e)) == e % 0x1_0000
    ensures forall h: bv16 :: Signed(h) == if Value16(h) < 0x8000 then Value16(h) else Value16(h) - 0x1_0000
  {
    hide EpochField, Unsigned, Value16;
    FieldRoundTrip(e);
    forall h: bv16
      ensures Unsigned(h) == Value16(h)
    {
      UnsignedNumber(h);
    }
  }

  lemma UnsignedNumber(h: bv16)
    ensures Unsigned(h) == Value16(h)
  {
    hide Value16, FromByte, High, Low;
    HalvesNumber(h);
  }

  lemma FieldRoundTrip(e: int)
    ensures Unsigned(EpochField(e)) == e % 0x1_0000
  {
    hide ToByte, FromByte, Word, High, Low;
    var u := e % 0x1_0000;
    HalvesBack(ToByte(u / 256), ToByte(u % 256));
    ByteRoundTrip(u / 256);
    ByteRoundTrip(u % 256);
  }

  lemma EpochRoundTrip(e: nat)
    requires e <= 0x8000
    ensures Signed(EpochField(e)) == if e < 0x8000 then e else -0x8000
  {
    hide Unsigned, EpochField;
    FieldRoundTrip(e);
  }

  function Header(e: int): Rec {
    Sealed(MAGIC, EpochField(e))
  }

  /** `header_read`. */
  function Epoch(p: Page): int
    requires |p| == CELLS
  {
    if Good(p[0]) then Signed(p[0].half) else -1
  }

  /** The page `storage_init` selects when a header is valid. */
  function Select(f: Flash): nat {
    if Epoch(f[0]) < Epoch(f[1]) then 1 else 0
  }

  /** What `storage_init` programs: a first header when neither page has one. */
  function InitOps(f: Flash): seq<Op> {
    if Epoch(f[0]) == -1 && Epoch(f[1]) == -1 then [Erase(0)] + RecordOps(0, 0, Header(0)) else []
  }

  /** The active page is in order and has the strictly greatest valid epoch. */
  predicate Healthy(f: Flash, a: nat) {
    a < 2 && Tidy(f[a]) && Epoch(f[a]) >= 0 && Epoch(f[1 - a]) < Epoch(f[a])
  }

  /** A restart finds the page that was active. */
  lemma RestartSelects(f: Flash, a: nat)
    requires Healthy(f, a)
    ensures Select(f) == a && InitOps(f) == []
  {
  }

  // ---- a save -------------------------------------------------------------------------------

  /** The erased page with its header under way. */
  function Fresh(e: int, k: nat): (p: Page)
    ensures |p| == CELLS
  {
    Blank()[0 := Partial(Header(e), k)]
  }

  lemma FreshEpoch(e: nat, k: nat)
    requires e < 0x8000 && k <= 3
    ensures Epoch(Fresh(e, k)) == if k == 3 then e else -1
    ensures Tidy(Fresh(e, k)) && Free(Fresh(e, k)) == 1 && Stored(Fresh(e, k)) == map[]
  {
    var h := Partial(Header(e), k);
    SumNotErased(h.word, h.half);
    EpochRoundTrip(e);
    hide Sum, EpochField, Signed;
    assert Good(h) == (k == 3);
    ErasedNotGood();
    hide Good;
    FreeIs(Fresh(e, k), 1);
    ContentsStop(Fresh(e, k), 1, CELLS);
  }

  /** The first start formats page 0. Cut short, it starts over; completed, the log is empty and healthy. */
  lemma FirstStart(f: Flash, k: nat)
    requires Epoch(f[0]) == -1 && Epoch(f[1]) == -1 && k <= 4
    ensures |InitOps(f)| == 4 && AllFit(InitOps(f)[..k])
    ensures var g := Perform(f, InitOps(f)[..k]);
      && (k < 4 ==> Epoch(g[0]) == -1 && Epoch(g[1]) == -1)
      && (k == 4 ==> Healthy(g, 0) && Epoch(g[0]) == 0 && Stored(g[0]) == map[])
  {
    hide Perform, RecordOps, Partial, Epoch, Header, Fresh, Stored;
    var ops := InitOps(f);
    assert ops == [Erase(0)] + RecordOps(0, 0, Header(0));
    if k == 0 {
      assert ops[..0] == [];
      PerformNone(f);
    } else {
      assert ops[..k] == [Erase(0)] + RecordOps(0, 0, Header(0))[..k - 1];
      HeaderSteps(f, 0, Header(0), k - 1);
      FreshEpoch(0, k - 1);
      FreshIs(0, k - 1);
    }
  }

  lemma FreshIs(e: int, k: nat)
    ensures Fresh(e, k) == Blank()[0 := Partial(Header(e), k)]
  {
  }

  /** Every flash call of a save, with the re-saves `resaved` a page swap makes. */
  function SaveOps(f: Flash, a: nat, r: Rec, resaved: seq<Rec>): seq<Op>
    requires a < 2
  {
    if Free(f[a]) < CELLS then FillOps(a, Free(f[a]), [r])
    else [Erase(1 - a)] + RecordOps(1 - a, 0, Header(Epoch(f[a]) + 1)) + FillOps(1 - a, 1, [r] + resaved)
  }

  predicate SwapFits(f: Flash, a: nat, resaved: seq<Rec>)
    requires a < 2
  {
    Free(f[a]) == CELLS ==> |resaved| <= CELLS - 2
  }

  lemma SaveFits(f: Flash, a: nat, r: Rec, resaved: seq<Rec>)
    requires a < 2 && SwapFits(f, a, resaved)
    ensures AllFit(SaveOps(f, a, r, resaved))
  {
    if Free(f[a]) < CELLS {
      FillFits(a, Free(f[a]), [r]);
    } else {
      FillFits(1 - a, 1, [r] + resaved);
    }
  }

  /** A save on a page with room, interrupted after any number of its three calls, leaves every
      parameter as it was; completed, it changes exactly its own. The other page is untouched. */
  lemma SaveInPlace(f: Flash, a: nat, r: Rec, resaved: seq<Rec>, k: nat)
    requires Healthy(f, a) && Free(f[a]) < CELLS && Good(r) && k <= 3
    ensures AllFit(SaveOps(f, a, r, resaved)[..k])
    ensures var g := Perform(f, SaveOps(f, a, r, resaved)[..k]);
      && Healthy(g, a) && Epoch(g[a]) == Epoch(f[a]) && g[1 - a] == f[1 - a]
      && Stored(g[a]) == if k < 3 then Stored(f[a]) else Stored(f[a])[Param(r.half) := r.word]
  {
    hide Good, Stored, Perform, FillOps, Filled, Sealed;
    FillSteps(f, a, Free(f[a]), [r], k);
    FilledStores(f[a], [r], k);
    if k < 3 {
      assert [r][..k / 3] == [];
    } else {
      assert [r][..k / 3] == [r] && [r][1..] == [];
    }
  }

  /** Erasing the other page and writing its header. */
  lemma HeaderSteps(f: Flash, b: nat, h: Rec, k: nat)
    requires b < 2 && k <= 3
    ensures AllFit([Erase(b)] + RecordOps(b, 0, h)[..k])
    ensures Perform(f, [Erase(b)] + RecordOps(b, 0, h)[..k]) == f[b := Blank()[0 := Partial(h, k)]]
  {
    hide Perform, RecordOps, Partial;
    var g := f[b := Blank()];
    PerformOne(f, Erase(b));
    RecordSteps(g, b, 0, h, k);
    PerformAdds(f, [Erase(b)], RecordOps(b, 0, h)[..k]);
  }

  lemma SwapSteps(f: Flash, a: nat, r: Rec, resaved: seq<Rec>, k: nat)
    requires a < 2 && Free(f[a]) == CELLS && |resaved| <= CELLS - 2
    requires 1 <= k <= |SaveOps(f, a, r, resaved)|
    ensures AllFit(SaveOps(f, a, r, resaved)[..k])
    ensures var e := Epoch(f[a]) + 1;
      Perform(f, SaveOps(f, a, r, resaved)[..k]) == f[1 - a :=
        if k < 4 then Fresh(e, k - 1) else Filled(Fresh(e, 3), 1, [r] + resaved, k - 4)]
  {
    hide Perform, FillOps, Filled, Partial, Header, RecordOps, Epoch, Free;
    var b := 1 - a;
    var e := Epoch(f[a]) + 1;
    var recs := [r] + resaved;
    var ops := SaveOps(f, a, r, resaved);
    var head, fill := RecordOps(b, 0, Header(e)), FillOps(b, 1, recs);
    assert ops == [Erase(b)] + head + fill;
    if k < 4 {
      assert ops[..k] == [Erase(b)] + head[..k - 1];
      HeaderSteps(f, b, Header(e), k - 1);
    } else {
      assert ops[..k] == ([Erase(b)] + head[..3]) + fill[..k - 4];
      HeaderSteps(f, b, Header(e), 3);
      var h := f[b := Fresh(e, 3)];
      FillSteps(h, b, 1, recs, k - 4);
      assert AllFit(fill[..k - 4]);
      PerformAdds(f, [Erase(b)] + head[..3], fill[..k - 4]);
    }
  }

  /** A page swap interrupted before the header checksum leaves the old page active and whole.
      From that call on the new page is active with the next epoch, and holds exactly the records
      whose third call was made. The old page is never touched. */
  lemma SaveWithSwap(f: Flash, a: nat, r: Rec, resaved: seq<Rec>, k: nat)
    requires Healthy(f, a) && Free(f[a]) == CELLS && Epoch(f[a]) < 0x7FFF
    requires |resaved| <= CELLS - 2 && AllGood([r] + resaved) && k <= |SaveOps(f, a, r, resaved)|
    ensures AllFit(SaveOps(f, a, r, resaved)[..k])
    ensures var g := Perform(f, SaveOps(f, a, r, resaved)[..k]);
      && g[a] == f[a]
      && (k < 4 ==> Healthy(g, a))
      && (k >= 4 ==> Healthy(g, 1 - a))
      && (k >= 4 ==> Epoch(g[1 - a]) == Epoch(f[a]) + 1)
      && (k >= 4 ==> Stored(g[1 - a]) == Overlay(map[], ([r] + resaved)[..(k - 4) / 3]))
  {
    hide Good, Stored, Perform, Filled, Partial, Header, Sealed, Overlay, Fresh;
    var e := Epoch(f[a]) + 1;
    if k == 0 {
      PerformNone(f);
      assert SaveOps(f, a, r, resaved)[..0] == [];
    } else {
      SwapSteps(f, a, r, resaved, k);
      if k < 4 {
        FreshEpoch(e, k - 1);
      } else {
        FreshEpoch(e, 3);
        FilledStores(Fresh(e, 3), [r] + resaved, k - 4);
      }
    }
  }

  lemma {:induction false} FilledKeepsHeader(p: Page, cell: nat, recs: seq<Rec>, k: nat)
    requires 1 <= cell && cell + |recs| <= |p| && k <= 3 * |recs|
    ensures Filled(p, cell, recs, k)[0] == p[0]
    decreases recs
  {
    hide Partial;
    if recs != [] && k >= 3 {
      FilledKeepsHeader(p[cell := recs[0]], cell + 1, recs[1..], k - 3);
    }
  }

  lemma HeaderEpoch(e: int)
    requires 0 <= e <= 0x8000
    ensures Good(Header(e)) && Signed(Header(e).half) == if e < 0x8000 then e else -0x8000
  {
    hide Sum, Signed, EpochField;
    EpochRoundTrip(e);
  }

  /** After a whole page swap a restart finds the new page exactly if the 16-bit epoch did not run over. */
  lemma RestartAfterSwap(f: Flash, a: nat, r: Rec, resaved: seq<Rec>)
    requires a < 2 && Free(f[a]) == CELLS && 0 <= Epoch(f[a]) && |resaved| <= CELLS - 2
    ensures AllFit(SaveOps(f, a, r, resaved))
    ensures Select(Perform(f, SaveOps(f, a, r, resaved))) == 1 - a <==> Epoch(f[a]) < 0x7FFF
  {
    hide Perform, Filled, Header, Good, FillOps, RecordOps, Signed, Free;
    var ops := SaveOps(f, a, r, resaved);
    var e, k := Epoch(f[a]) + 1, |ops|;
    assert ops[..k] == ops;
    EpochBound(f[a]);
    SwapSteps(f, a, r, resaved, k);
    PartialFull(Header(e));
    HeaderEpoch(e);
    FilledKeepsHeader(Fresh(e, 3), 1, [r] + resaved, k - 4);
  }

  lemma EpochBound(p: Page)
    requires |p| == CELLS
    ensures Epoch(p) <= 0x7FFF
  {
  }
}
