/** The flash store as its callers see it: a map that survives restarts. */
module StorageSystem {
  import opened FlashLog
  import opened FlashRecovery
  import opened FlashRuns
  import opened Storage

  /** The event a call of `storage_write` is. */
  function SaveOf(param: bv16, value: bv32, callback: seq<(bv16, bv32)>): Event {
    Save(Sealed(value, param), CallbackRecs(callback))
  }

  lemma SaveIsSane(param: bv16, value: bv32, callback: seq<(bv16, bv32)>)
    requires |callback| <= CELLS - 2
    ensures Sane(SaveOf(param, value, callback))
  {
  }

  /** A parameter written and any parameter read back, across a page swap and a restart: the written value, or what
      the other parameter had before. On a full page the callback must save again what the page held. */
  method WriteThenRead(s: Store, param: bv16, value: bv32, other: bv16) returns (read: bv32)
    requires s.Valid() && Healthy(s.Image(), s.activeSlot) && Epoch(s.Image()[s.activeSlot]) < 0x7FFF
    requires |s.saveCallback| <= CELLS - 2
    requires Faithful(s.Image(), s.activeSlot, SaveOf(param, value, s.saveCallback))
    modifies s, s.page0, s.page1
    ensures s.Valid() && Healthy(s.Image(), s.activeSlot) && s.saveCallback == old(s.saveCallback)
    ensures Stored(s.Image()[s.activeSlot]) == old(Stored(s.Image()[s.activeSlot]))[Param(param) := value]
    ensures read == if other == param then value else Get(old(Stored(s.Image()[s.activeSlot])), other)
  {
    hide Stored, Perform, Epoch, Tidy, Faithful, SaveOps, Sealed, Good, Select, InitOps, Get;
    ghost var f, a, e := s.Image(), s.activeSlot, SaveOf(param, value, s.saveCallback);
    SaveIsSane(param, value, s.saveCallback);
    SaveIsCompleted(f, a, param, value, s.saveCallback);
    EventKeepsMap(f, a, e);
    s.Write(param, value);
    assert s.Image() == After(f, a, e);
    RestartSelects(s.Image(), s.activeSlot);
    PerformNone(s.Image());
    s.Init(s.saveCallback);
    read := s.Read(other);
    GetAfter(Stored(f[a]), param, value, other);
  }

  lemma SaveIsCompleted(f: Flash, a: nat, param: bv16, value: bv32, callback: seq<(bv16, bv32)>)
    requires a < 2
    ensures var e := SaveOf(param, value, callback);
      && Completed(f, a, e) && !InWindow(f, a, e)
      && Calls(f, a, e) == SaveOps(f, a, Sealed(value, param), CallbackRecs(callback))
      && e.r.half == param && e.r.word == value
  {
  }

  lemma GetAfter(m: map<Param, bv32>, param: bv16, value: bv32, other: bv16)
    ensures Get(m[Param(param) := value], other) == if other == param then value else Get(m, other)
  {
  }
}
