/** Any number of saves, crashes and restarts; and when a page swap's recursion ends. */
module FlashRuns {
  import opened Common
  import opened FlashLog
  import opened FlashRecovery

  // ---- runs ---------------------------------------------------------------------------------

  /** A save that completes, or one cut short after `calls` flash calls and followed by a restart. */
  datatype Event =
    | Save(r: Rec, resaved: seq<Rec>)
    | Crash(r: Rec, resaved: seq<Rec>, calls: nat)

  predicate Sane(e: Event) {
    AllGood([e.r] + e.resaved) && |e.resaved| <= CELLS - 2
  }

  /** The flash calls an event makes. */
  function Calls(f: Flash, a: nat, e: Event): (ops: seq<Op>)
    requires a < 2
  {
    var ops := SaveOps(f, a, e.r, e.resaved);
    if e.Crash? && e.calls < |ops| then ops[..e.calls] else ops
  }

  predicate Full(f: Flash, a: nat)
    requires a < 2
  {
    Free(f[a]) == CELLS
  }

  lemma CallsFit(f: Flash, a: nat, e: Event)
    requires Healthy(f, a) && Sane(e) && Epoch(f[a]) < 0x7FFF
    ensures AllFit(Calls(f, a, e))
  {
    hide FillOps, Good, Epoch, Header;
    SaveFits(f, a, e.r, e.resaved);
  }

  function After(f: Flash, a: nat, e: Event): Flash
    requires Healthy(f, a) && Sane(e) && Epoch(f[a]) < 0x7FFF
  {
    CallsFit(f, a, e);
    Perform(f, Calls(f, a, e))
  }

  /** The slot in use afterwards: what the save switched to, or what the restart selects. */
  function SlotAfter(f: Flash, a: nat, e: Event): nat
    requires Healthy(f, a) && Sane(e) && Epoch(f[a]) < 0x7FFF
  {
    if e.Crash? then Select(After(f, a, e)) else if Full(f, a) then 1 - a else a
  }

  /** The event made the last call of its save. */
  predicate Completed(f: Flash, a: nat, e: Event)
    requires a < 2
  {
    e.Save? || e.calls >= |SaveOps(f, a, e.r, e.resaved)|
  }

  /** A swap was cut short after its header counted and before every parameter was saved again. */
  predicate InWindow(f: Flash, a: nat, e: Event)
    requires a < 2
  {
    Full(f, a) && 4 <= |Calls(f, a, e)| && !Completed(f, a, e)
  }

  /** The callback saves again exactly what the full page held, with the new value. */
  predicate Faithful(f: Flash, a: nat, e: Event)
    requires a < 2
  {
    Full(f, a) ==>
      Overlay(map[], [e.r] + e.resaved) == Stored(f[a])[Param(e.r.half) := e.r.word]
  }

  /** Every event leaves a healthy flash, and a restart is never needed to tell which page counts. */
  lemma EventKeepsHealthy(f: Flash, a: nat, e: Event)
    requires Healthy(f, a) && Sane(e) && Epoch(f[a]) < 0x7FFF
    ensures var g, b := After(f, a, e), SlotAfter(f, a, e);
      Healthy(g, b) && Epoch(f[a]) <= Epoch(g[b]) <= Epoch(f[a]) + 1
  {
    hide FillOps, Good, Header, Perform, Stored, Overlay, Select, Epoch, Tidy;
    var ops := SaveOps(f, a, e.r, e.resaved);
    var k := |Calls(f, a, e)|;
    assert ops[..|ops|] == ops;
    if Full(f, a) {
      SaveWithSwap(f, a, e.r, e.resaved, k);
      RestartSelects(After(f, a, e), if k < 4 then a else 1 - a);
    } else {
      assert Good(e.r) by { assert Good(([e.r] + e.resaved)[0]); }
      SaveInPlace(f, a, e.r, e.resaved, k);
      RestartSelects(After(f, a, e), a);
    }
  }

  /** Outside the window the stored map is either unchanged or changed by exactly this save. */
  lemma EventKeepsMap(f: Flash, a: nat, e: Event)
    requires Healthy(f, a) && Sane(e) && Epoch(f[a]) < 0x7FFF
    requires Faithful(f, a, e) && !InWindow(f, a, e)
    ensures Healthy(After(f, a, e), SlotAfter(f, a, e))
    ensures Stored(After(f, a, e)[SlotAfter(f, a, e)])
         == if Completed(f, a, e) then Stored(f[a])[Param(e.r.half) := e.r.word] else Stored(f[a])
  {
    hide FillOps, Good, Header, Perform, Stored, Overlay, Select, Epoch, Tidy;
    EventKeepsHealthy(f, a, e);
    var ops := SaveOps(f, a, e.r, e.resaved);
    var k := |Calls(f, a, e)|;
    assert ops[..|ops|] == ops;
    if Full(f, a) {
      SaveWithSwap(f, a, e.r, e.resaved, k);
      RestartSelects(After(f, a, e), if k < 4 then a else 1 - a);
      var recs := [e.r] + e.resaved;
      assert (k - 4) / 3 == |recs| ==> recs[..(k - 4) / 3] == recs;
    } else {
      assert Good(e.r) by { assert Good(([e.r] + e.resaved)[0]); }
      SaveInPlace(f, a, e.r, e.resaved, k);
      RestartSelects(After(f, a, e), a);
    }
  }

  /** What an event leaves stored: its save if completed, what was there before if the save had not come to
      count, and in the window only the parameters saved again so far. */
  function Left(f: Flash, a: nat, e: Event): map<Param, bv32>
    requires a < 2
  {
    if InWindow(f, a, e) then Overlay(map[], ([e.r] + e.resaved)[..(|Calls(f, a, e)| - 4) / 3])
    else if Completed(f, a, e) then Stored(f[a])[Param(e.r.half) := e.r.word]
    else Stored(f[a])
  }

  /** Every event, wherever it is cut short, leaves exactly that. */
  lemma EventLeaves(f: Flash, a: nat, e: Event)
    requires Healthy(f, a) && Sane(e) && Epoch(f[a]) < 0x7FFF && Faithful(f, a, e)
    ensures Stored(After(f, a, e)[SlotAfter(f, a, e)]) == Left(f, a, e)
  {
    hide FillOps, Good, Header, Perform, Stored, Overlay, Select, Epoch, Tidy;
    EventKeepsHealthy(f, a, e);
    if InWindow(f, a, e) {
      SaveWithSwap(f, a, e.r, e.resaved, |Calls(f, a, e)|);
      RestartSelects(After(f, a, e), 1 - a);
    } else {
      EventKeepsMap(f, a, e);
    }
  }

  // ---- exactly which crashes lose something -------------------------------------------------

  function Names(recs: seq<Rec>): set<Param> {
    set i | 0 <= i < |recs| :: Param(recs[i].half)
  }

  lemma {:induction false} OverlayNames(m: map<Param, bv32>, recs: seq<Rec>)
    ensures Overlay(m, recs).Keys == m.Keys + Names(recs)
    decreases recs
  {
    if recs != [] {
      OverlayNames(m[Param(recs[0].half) := recs[0].word], recs[1..]);
      forall p | p in Names(recs)
        ensures p == Param(recs[0].half) || p in Names(recs[1..])
      {
        var i :| 0 <= i < |recs| && p == Param(recs[i].half);
        if i > 0 {
          assert recs[1..][i - 1] == recs[i];
        }
      }
      assert Param(recs[0].half) in Names(recs);
      assert forall i :: 0 <= i < |recs[1..]| ==> recs[1..][i] == recs[i + 1];
    }
  }

  /** Every record carries the word `m` has for its parameter. */
  predicate Agreeing(m: map<Param, bv32>, recs: seq<Rec>) {
    forall i :: 0 <= i < |recs| ==> Param(recs[i].half) in m && m[Param(recs[i].half)] == recs[i].word
  }

  /** The words a map has for some parameters. */
  function Part(m: map<Param, bv32>, names: set<Param>): map<Param, bv32> {
    map p | p in m.Keys * names :: m[p]
  }

  lemma PartIs(m: map<Param, bv32>, part: map<Param, bv32>, names: set<Param>)
    requires part.Keys == names && names <= m.Keys && forall p :: p in part ==> part[p] == m[p]
    ensures part == Part(m, names)
  {
  }

  /** Records that agree with a map, laid over a part of it, make the part with their names too. */
  lemma {:induction false} OverlayAgrees(m: map<Param, bv32>, part: map<Param, bv32>, recs: seq<Rec>)
    requires Agreeing(m, recs) && part.Keys <= m.Keys && forall p :: p in part ==> part[p] == m[p]
    ensures var all := Overlay(part, recs); all.Keys <= m.Keys && forall p :: p in all ==> all[p] == m[p]
    decreases recs
  {
    if recs != [] {
      OverlayAgrees(m, part[Param(recs[0].half) := recs[0].word], recs[1..]);
    }
  }

  lemma PrefixPart(m: map<Param, bv32>, recs: seq<Rec>, p: nat)
    requires Agreeing(m, recs) && p <= |recs|
    ensures Overlay(map[], recs[..p]) == Part(m, Names(recs[..p])) && Names(recs[..p]) <= m.Keys
  {
    hide Overlay, Part;
    OverlayAgrees(m, map[], recs[..p]);
    OverlayNames(map[], recs[..p]);
    PartIs(m, Overlay(map[], recs[..p]), Names(recs[..p]));
  }

  lemma PartsEqual(m: map<Param, bv32>, a: set<Param>, b: set<Param>)
    requires a <= m.Keys && b <= m.Keys
    ensures Part(m, a) == Part(m, b) <==> a == b
    ensures Part(m, a) == m <==> a == m.Keys
  {
    assert Part(m, a).Keys == a && Part(m, b).Keys == b;
  }

  lemma FirstNamed(recs: seq<Rec>, p: nat)
    requires p <= |recs|
    ensures p > 0 ==> Param(recs[0].half) in Names(recs[..p])
    ensures p == 0 ==> Names(recs[..p]) == {}
  {
    if p > 0 {
      assert recs[..p][0] == recs[0];
    }
  }

  /** The first `p` of the records that make up the new map make it exactly if they name all its parameters, and the
      old map otherwise only if both are empty. */
  lemma PrefixMakes(before: map<Param, bv32>, recs: seq<Rec>, p: nat)
    requires recs != [] && p <= |recs|
    requires var after := before[Param(recs[0].half) := recs[0].word];
      Overlay(map[], recs) == after && Agreeing(after, recs)
    ensures var after := before[Param(recs[0].half) := recs[0].word];
      var left := Overlay(map[], recs[..p]);
      && (left == after <==> Names(recs[..p]) == Names(recs))
      && (left == before ==> left == after || (before == map[] && p == 0))
      && (p == 0 ==> left == map[])
  {
    hide Overlay, Names, Part, Agreeing;
    var after := before[Param(recs[0].half) := recs[0].word];
    var left, all := Overlay(map[], recs[..p]), Names(recs);
    PrefixPart(after, recs, p);
    OverlayNames(map[], recs);
    PartsEqual(after, Names(recs[..p]), all);
    FirstNamed(recs, p);
    if p == 0 {
      assert recs[..0] == [];
      NoOverlay();
    } else if left == before {
      FirstKept(before, after, Param(recs[0].half), recs[0].word, Names(recs[..p]));
    }
  }

  /** A part of the new map that has the saved parameter and is the old map is the new one. */
  lemma FirstKept(before: map<Param, bv32>, after: map<Param, bv32>, saved: Param, word: bv32, names: set<Param>)
    requires after == before[saved := word] && before == Part(after, names) && saved in names
    ensures before == after
  {
    assert saved in before && before[saved] == word;
  }

  lemma NoOverlay()
    ensures Overlay(map[], []) == map[]
  {
  }

  /** The records of the callback the window lets through. */
  function Resaved(f: Flash, a: nat, e: Event): seq<Rec>
    requires a < 2 && InWindow(f, a, e)
  {
    WindowCount(f, a, e);
    ([e.r] + e.resaved)[..(|Calls(f, a, e)| - 4) / 3]
  }

  lemma WindowCount(f: Flash, a: nat, e: Event)
    requires a < 2 && InWindow(f, a, e)
    ensures var p := (|Calls(f, a, e)| - 4) / 3; 0 <= p < |[e.r] + e.resaved| && (p == 0 <==> |Calls(f, a, e)| < 7)
    ensures Full(f, a) && |Calls(f, a, e)| >= 4
  {
    hide FreeFrom, Header, Epoch;
  }

  /** The callback saves nothing but what the new map has. */
  predicate Consistent(f: Flash, a: nat, e: Event)
    requires a < 2
  {
    Agreeing(Stored(f[a])[Param(e.r.half) := e.r.word], [e.r] + e.resaved)
  }

  /** Every parameter the callback saves was saved again before the crash. */
  predicate AllResaved(f: Flash, a: nat, e: Event)
    requires a < 2 && InWindow(f, a, e)
  {
    Names(Resaved(f, a, e)) == Names([e.r] + e.resaved)
  }

  /** In the window the save is complete exactly if all parameters were saved again, and the old map is kept otherwise
      only if nothing was stored and nothing is stored yet. */
  lemma WindowLoses(f: Flash, a: nat, e: Event)
    requires a < 2 && Healthy(f, a) && Sane(e) && Epoch(f[a]) < 0x7FFF && Faithful(f, a, e) && InWindow(f, a, e)
    requires Consistent(f, a, e)
    ensures Left(f, a, e) == Stored(f[a])[Param(e.r.half) := e.r.word] <==> AllResaved(f, a, e)
    ensures Left(f, a, e) == Stored(f[a]) ==>
      AllResaved(f, a, e) || (Stored(f[a]) == map[] && |Calls(f, a, e)| < 7)
    ensures |Calls(f, a, e)| < 7 ==> Left(f, a, e) == map[]
  {
    hide Calls, SaveOps, InWindow, Completed, Good, Stored, Overlay, Epoch, Healthy, Agreeing, Names, Sane, Full;
    WindowCount(f, a, e);
    assert ([e.r] + e.resaved)[0] == e.r;
    PrefixMakes(Stored(f[a]), [e.r] + e.resaved, (|Calls(f, a, e)| - 4) / 3);
  }

  /** A crash leaves the map as it was or with exactly this save if and only if it falls outside the window, or nothing
      was stored and nothing is stored yet, or everything was saved again already. */
  lemma CrashAtomicIff(f: Flash, a: nat, e: Event)
    requires Healthy(f, a) && Sane(e) && Epoch(f[a]) < 0x7FFF && Faithful(f, a, e) && e.Crash?
    requires Consistent(f, a, e)
    ensures var before, after := Stored(f[a]), Stored(After(f, a, e)[SlotAfter(f, a, e)]);
      (after == before || after == before[Param(e.r.half) := e.r.word]) <==>
        !InWindow(f, a, e) || (before == map[] && |Calls(f, a, e)| < 7) || AllResaved(f, a, e)
  {
    assert a < 2;
    hide FillOps, Good, Header, Perform, Stored, Overlay, Select, Epoch, Tidy, Healthy, InWindow, Completed, Faithful,
         After, SlotAfter, Consistent, AllResaved, Calls;
    EventLeaves(f, a, e);
    if InWindow(f, a, e) {
      WindowLoses(f, a, e);
    }
  }

  // ---- callbacks that save each parameter once ----------------------------------------------

  predicate Distinct(recs: seq<Rec>) {
    forall i, j :: 0 <= i < j < |recs| ==> recs[i].half != recs[j].half
  }

  lemma {:induction false} OverlayKeeps(m: map<Param, bv32>, recs: seq<Rec>, p: Param)
    requires p in m && p !in Names(recs)
    ensures p in Overlay(m, recs) && Overlay(m, recs)[p] == m[p]
    decreases recs
  {
    if recs != [] {
      assert Param(recs[0].half) in Names(recs);
      forall i | 0 <= i < |recs[1..]|
        ensures p != Param(recs[1..][i].half)
      {
        assert Param(recs[i + 1].half) in Names(recs);
      }
      OverlayKeeps(m[Param(recs[0].half) := recs[0].word], recs[1..], p);
    }
  }

  /** Different parameters keep their words. */
  lemma {:induction false} DistinctAgrees(m: map<Param, bv32>, recs: seq<Rec>)
    requires Distinct(recs)
    ensures Agreeing(Overlay(m, recs), recs)
    decreases recs
  {
    if recs != [] {
      var one := m[Param(recs[0].half) := recs[0].word];
      DistinctAgrees(one, recs[1..]);
      OverlayKeeps(one, recs[1..], Param(recs[0].half));
      forall i | 0 <= i < |recs|
        ensures Param(recs[i].half) in Overlay(m, recs) && Overlay(m, recs)[Param(recs[i].half)] == recs[i].word
      {
        if i > 0 {
          assert recs[1..][i - 1] == recs[i];
        }
      }
    }
  }

  /** The first `p` names lack the last one. */
  lemma PrefixLacksLast(recs: seq<Rec>, p: nat)
    requires Distinct(recs) && p < |recs|
    ensures Names(recs[..p]) != Names(recs)
  {
    var last := Param(recs[|recs| - 1].half);
    assert last in Names(recs) && last !in Names(recs[..p]);
  }

  /** With a callback that saves every parameter once, and not the written one again, only a crash outside the window
      or over an empty store leaves the old map or the new one. */
  lemma CrashAtomicOnce(f: Flash, a: nat, e: Event)
    requires a < 2 && Healthy(f, a) && Sane(e) && Epoch(f[a]) < 0x7FFF && Faithful(f, a, e) && e.Crash?
    requires Distinct([e.r] + e.resaved)
    ensures var before, after := Stored(f[a]), Stored(After(f, a, e)[SlotAfter(f, a, e)]);
      (after == before || after == before[Param(e.r.half) := e.r.word])
        <==> !InWindow(f, a, e) || (before == map[] && |Calls(f, a, e)| < 7)
  {
    hide Good, Stored, Overlay, Epoch, Healthy, Names, Sane, Full, After, SlotAfter, Calls, Distinct, InWindow,
         Agreeing;
    if InWindow(f, a, e) {
      WindowCount(f, a, e);
      DistinctAgrees(map[], [e.r] + e.resaved);
      PrefixLacksLast([e.r] + e.resaved, (|Calls(f, a, e)| - 4) / 3);
      CrashAtomicIff(f, a, e);
    } else {
      EventLeaves(f, a, e);
    }
  }

  /** A page whose blocks all hold `r`. */
  function FullOf(epoch: nat, r: Rec): (p: Page)
    ensures |p| == CELLS
  {
    seq(CELLS, i => r)[0 := Header(epoch)]
  }

  lemma {:induction false} FullContents(epoch: nat, r: Rec, n: nat)
    requires Good(r) && 2 <= n <= CELLS
    ensures Contents(FullOf(epoch, r), n) == map[Param(r.half) := r.word]
  {
    hide Good, Header;
    if n > 2 {
      FullContents(epoch, r, n - 1);
    } else {
      assert Contents(FullOf(epoch, r), 1) == map[];
    }
  }

  lemma FullIsHealthy(epoch: nat, r: Rec)
    requires Good(r) && epoch < 0x8000
    ensures var f := [FullOf(epoch, r), Blank()];
      Healthy(f, 0) && Full(f, 0) && Epoch(f[0]) == epoch && Stored(f[0]) == map[Param(r.half) := r.word]
  {
    HeaderEpoch(epoch);
    ErasedNotGood();
    GoodNotErased(r);
    FullContents(epoch, r, CELLS);
    hide Good, Header;
    FreeIs(FullOf(epoch, r), CELLS);
  }

  /** The old page of epoch 32767 is found again after a whole swap, and the save is gone. */
  lemma EpochRunsOver()
    ensures var f := [FullOf(0x7FFF, Sealed(7, 1)), Blank()];
      var ops := SaveOps(f, 0, Sealed(9, 2), [Sealed(7, 1)]);
      && Healthy(f, 0) && AllFit(ops) && Select(Perform(f, ops)) == 0
  {
    hide Sum;
    var r := Sealed(7, 1);
    assert Good(r);
    FullIsHealthy(0x7FFF, r);
    hide Sealed, Good, Stored, FullOf, Perform, SaveOps;
    RestartAfterSwap([FullOf(0x7FFF, r), Blank()], 0, Sealed(9, 2), [r]);
  }

  lemma OverlayTwo(s: Rec, r: Rec)
    ensures Overlay(map[], [s] + [r]) == map[Param(s.half) := s.word][Param(r.half) := r.word]
  {
    var both, one := [s] + [r], map[Param(s.half) := s.word];
    assert both[0] == s && both[1..] == [r] && [r][1..] == [];
    assert Overlay(map[], both) == Overlay(one, [r]);
    assert Overlay(one, [r]) == Overlay(one[Param(r.half) := r.word], []);
  }

  lemma FourCalls(f: Flash, r: Rec, s: Rec)
    requires Full(f, 0)
    ensures InWindow(f, 0, Crash(s, [r], 4)) && |Calls(f, 0, Crash(s, [r], 4))| == 4
  {
    hide FreeFrom, Header, Epoch;
  }

  /** A full page holds `r` alone. A save of another parameter cut short once its new header counts leaves nothing. */
  lemma LateCrash(r: Rec, s: Rec)
    requires Good(r) && Good(s) && r.half != s.half
    ensures var f, e := [FullOf(0, r), Blank()], Crash(s, [r], 4);
      && Healthy(f, 0) && Sane(e) && Epoch(f[0]) < 0x7FFF && Faithful(f, 0, e) && InWindow(f, 0, e)
      && Stored(f[0]) == map[Param(r.half) := r.word]
      && Stored(After(f, 0, e)[SlotAfter(f, 0, e)]) == map[]
  {
    hide Good, Stored, Epoch, Healthy, FullOf, Calls, SaveOps, Full, InWindow, Sane, Faithful, After, SlotAfter,
         Overlay;
    var f, e := [FullOf(0, r), Blank()], Crash(s, [r], 4);
    FullIsHealthy(0, r);
    SaneAndFaithful(f, r, s);
    FourCalls(f, r, s);
    EventLeaves(f, 0, e);
    assert ([s] + [r])[..0] == [];
    NoOverlay();
  }

  lemma SaneAndFaithful(f: Flash, r: Rec, s: Rec)
    requires Good(r) && Good(s) && r.half != s.half && Stored(f[0]) == map[Param(r.half) := r.word]
    ensures var e := Crash(s, [r], 4); Sane(e) && Faithful(f, 0, e)
  {
    hide Good, Stored, Full, Overlay;
    OverlayTwo(s, r);
  }

  /** Parameter 1 holds 7, and a save of parameter 2 is cut short so: after the restart parameter 1 reads as never
      written. */
  lemma ParameterLost()
    ensures var f, e := [FullOf(0, Sealed(7, 1)), Blank()], Crash(Sealed(9, 2), [Sealed(7, 1)], 4);
      && Healthy(f, 0) && Sane(e) && Epoch(f[0]) < 0x7FFF && Faithful(f, 0, e) && InWindow(f, 0, e)
      && Get(Stored(f[0]), 1) == 7
      && Get(Stored(After(f, 0, e)[SlotAfter(f, 0, e)]), 1) == 0xFFFF_FFFF
  {
    hide Sum, Stored, Epoch, Healthy, FullOf, Faithful, InWindow, Sane, After, SlotAfter;
    LateCrash(Sealed(7, 1), Sealed(9, 2));
  }

  // ---- runs ---------------------------------------------------------------------------------

  predicate AllSane(events: seq<Event>) {
    forall i :: 0 <= i < |events| ==> Sane(events[i])
  }

  /** The flash and the active slot after a run. */
  function Ran(f: Flash, a: nat, events: seq<Event>): (r: (Flash, nat))
    requires Healthy(f, a) && AllSane(events) && Epoch(f[a]) + |events| <= 0x7FFF
    ensures Healthy(r.0, r.1)
    decreases events
  {
    if events == [] then (f, a)
    else
      EventKeepsHealthy(f, a, events[0]);
      Ran(After(f, a, events[0]), SlotAfter(f, a, events[0]), events[1..])
  }

  /** Every callback of the run saves what the full page held. */
  predicate AllFaithful(f: Flash, a: nat, events: seq<Event>)
    requires Healthy(f, a) && AllSane(events) && Epoch(f[a]) + |events| <= 0x7FFF
    decreases events
  {
    events == [] ||
    (EventKeepsHealthy(f, a, events[0]);
     Faithful(f, a, events[0]) && AllFaithful(After(f, a, events[0]), SlotAfter(f, a, events[0]), events[1..]))
  }

  /** The map `m` after a run: each event saves, or not, or leaves what its window left. */
  function MapAfter(m: map<Param, bv32>, f: Flash, a: nat, events: seq<Event>): map<Param, bv32>
    requires Healthy(f, a) && AllSane(events) && Epoch(f[a]) + |events| <= 0x7FFF
    decreases events
  {
    if events == [] then m
    else
      EventKeepsHealthy(f, a, events[0]);
      var e := events[0];
      var next :=
        if InWindow(f, a, e) then Overlay(map[], ([e.r] + e.resaved)[..(|Calls(f, a, e)| - 4) / 3])
        else if Completed(f, a, e) then m[Param(e.r.half) := e.r.word]
        else m;
      MapAfter(next, After(f, a, e), SlotAfter(f, a, e), events[1..])
  }

  /** Over any run of saves, swaps, crashes at any call and restarts, the store is exactly this map. */
  lemma {:induction false} RunRefinesMap(f: Flash, a: nat, events: seq<Event>)
    requires Healthy(f, a) && AllSane(events) && Epoch(f[a]) + |events| <= 0x7FFF && AllFaithful(f, a, events)
    ensures var r := Ran(f, a, events); Stored(r.0[r.1]) == MapAfter(Stored(f[a]), f, a, events)
    decreases events
  {
    assert a < 2;
    hide After, SlotAfter, Healthy, Completed, Faithful, InWindow, Stored, Epoch, Good, Overlay;
    if events != [] {
      var e := events[0];
      EventKeepsHealthy(f, a, e);
      EventLeaves(f, a, e);
      RunRefinesMap(After(f, a, e), SlotAfter(f, a, e), events[1..]);
    }
  }

  /** No crash of the run falls in the window. */
  predicate OutsideWindow(f: Flash, a: nat, events: seq<Event>)
    requires Healthy(f, a) && AllSane(events) && Epoch(f[a]) + |events| <= 0x7FFF
    decreases events
  {
    events == [] ||
    (EventKeepsHealthy(f, a, events[0]);
     !InWindow(f, a, events[0]) && OutsideWindow(After(f, a, events[0]), SlotAfter(f, a, events[0]), events[1..]))
  }

  /** The records whose save was completed, in order. */
  function Commits(f: Flash, a: nat, events: seq<Event>): seq<Rec>
    requires Healthy(f, a) && AllSane(events) && Epoch(f[a]) + |events| <= 0x7FFF
    decreases events
  {
    if events == [] then []
    else
      EventKeepsHealthy(f, a, events[0]);
      (if Completed(f, a, events[0]) then [events[0].r] else [])
        + Commits(After(f, a, events[0]), SlotAfter(f, a, events[0]), events[1..])
  }

  /** Outside the window that map is what was stored before overlaid with the completed saves in order. */
  lemma {:induction false} RunKeepsCommits(m: map<Param, bv32>, f: Flash, a: nat, events: seq<Event>)
    requires Healthy(f, a) && AllSane(events) && Epoch(f[a]) + |events| <= 0x7FFF && OutsideWindow(f, a, events)
    ensures MapAfter(m, f, a, events) == Overlay(m, Commits(f, a, events))
    decreases events
  {
    assert a < 2;
    hide After, SlotAfter, Healthy, Completed, InWindow, Epoch, Good;
    if events != [] {
      var e := events[0];
      EventKeepsHealthy(f, a, e);
      var g, b := After(f, a, e), SlotAfter(f, a, e);
      var later := Commits(g, b, events[1..]);
      if Completed(f, a, e) {
        RunKeepsCommits(m[Param(e.r.half) := e.r.word], g, b, events[1..]);
        assert ([e.r] + later)[1..] == later;
      } else {
        RunKeepsCommits(m, g, b, events[1..]);
        assert [] + later == later;
      }
    }
  }

  // ---- when the recursion of a swap ends ----------------------------------------------------

  /** The page swap before the callback runs. */
  function Swapped(f: Flash, a: nat, r: Rec): Flash
    requires a < 2
  {
    f[1 - a := Fresh(Epoch(f[a]) + 1, 3)[1 := r]]
  }

  /** Saving `recs` one after the other; a save on a full page swaps and then saves `resaved`,
      each of those in the same way. None when `fuel` calls are not enough. */
  function Saves(f: Flash, a: nat, recs: seq<Rec>, resaved: seq<Rec>, fuel: nat): Option<(Flash, nat)>
    requires a < 2
    decreases fuel
  {
    if recs == [] then Some((f, a))
    else if fuel == 0 then None
    else
      var n := Free(f[a]);
      if n < CELLS then Saves(f[a := f[a][n := recs[0]]], a, recs[1..], resaved, fuel - 1)
      else
        match Saves(Swapped(f, a, recs[0]), 1 - a, resaved, resaved, fuel - 1)
        case None => None
        case Some((g, b)) => if b < 2 then Saves(g, b, recs[1..], resaved, fuel - 1) else None
  }

  lemma SwappedHasRoom(f: Flash, a: nat, r: Rec)
    requires a < 2 && Good(r)
    ensures var q := Swapped(f, a, r)[1 - a]; Tidy(q) && Free(q) == 2
  {
    hide Good, Header, Partial, Epoch;
    var p := Fresh(Epoch(f[a]) + 1, 3);
    var q := p[1 := r];
    GoodNotErased(r);
    FreeIs(q, 2);
  }

  /** Writes that fit on the page need one call each. */
  lemma {:induction false} SavesWithRoom(f: Flash, a: nat, recs: seq<Rec>, resaved: seq<Rec>, fuel: nat)
    requires a < 2 && Tidy(f[a]) && AllGood(recs) && |recs| <= CELLS - Free(f[a]) && |recs| <= fuel
    ensures Saves(f, a, recs, resaved, fuel).Some?
    decreases fuel
  {
    hide Good, Tidy, Stored;
    if recs != [] {
      AppendCommits(f[a], recs[0]);
      SavesWithRoom(f[a := f[a][Free(f[a]) := recs[0]]], a, recs[1..], resaved, fuel - 1);
    }
  }

  /** A callback that saves as many parameters as a page has blocks never finishes. */
  lemma {:induction false} SavesForever(f: Flash, a: nat, recs: seq<Rec>, resaved: seq<Rec>, fuel: nat)
    requires a < 2 && Tidy(f[a]) && AllGood(recs) && AllGood(resaved)
    requires |resaved| > CELLS - 2 && |recs| > CELLS - Free(f[a])
    ensures Saves(f, a, recs, resaved, fuel) == None
    decreases fuel
  {
    hide Good, Tidy, Stored, Swapped;
    if fuel > 0 {
      if Free(f[a]) < CELLS {
        AppendCommits(f[a], recs[0]);
        SavesForever(f[a := f[a][Free(f[a]) := recs[0]]], a, recs[1..], resaved, fuel - 1);
      } else {
        SwappedHasRoom(f, a, recs[0]);
        SavesForever(Swapped(f, a, recs[0]), 1 - a, resaved, resaved, fuel - 1);
      }
    }
  }

  /** On a full page a save comes to an end exactly when the callback saves at most 2046 parameters. */
  lemma SwapEndsIff(f: Flash, a: nat, r: Rec, resaved: seq<Rec>)
    requires a < 2 && Tidy(f[a]) && Full(f, a) && AllGood([r] + resaved)
    ensures (exists fuel: nat :: Saves(f, a, [r], resaved, fuel).Some?) <==> |resaved| <= 2046
  {
    hide Good, Tidy, Swapped, Saves, Free;
    assert Good(([r] + resaved)[0]);
    forall i | 0 <= i < |resaved|
      ensures Good(resaved[i])
    {
      assert resaved[i] == ([r] + resaved)[i + 1];
    }
    if |resaved| <= 2046 {
      SwappedHasRoom(f, a, r);
      SavesWithRoom(Swapped(f, a, r), 1 - a, resaved, resaved, |resaved| + 1);
      SwapUnfolds(f, a, r, resaved, |resaved| + 1);
      assert Saves(f, a, [r], resaved, |resaved| + 2).Some?;
    } else {
      forall fuel: nat
        ensures !Saves(f, a, [r], resaved, fuel).Some?
      {
        SavesForever(f, a, [r], resaved, fuel);
      }
    }
  }

  /** A full page and a callback of 2047 saves. */
  lemma SwapNeverEnds(fuel: nat)
    ensures var f := [FullOf(0, Sealed(7, 1)), Blank()];
      Saves(f, 0, [Sealed(9, 2)], seq(2047, i => Sealed(7, 1)), fuel) == None
  {
    hide Sum;
    var r, s := Sealed(7, 1), Sealed(9, 2);
    assert Good(r) && Good(s);
    FullIsHealthy(0, r);
    hide Sealed, Good, Stored, FullOf, Saves;
    SavesForever([FullOf(0, r), Blank()], 0, [s], seq(CELLS - 1, i => r), fuel);
  }

  lemma {:induction false} SlotStays(f: Flash, a: nat, recs: seq<Rec>, resaved: seq<Rec>, fuel: nat)
    requires a < 2
    ensures var s := Saves(f, a, recs, resaved, fuel); s.Some? ==> s.value.1 < 2
    decreases fuel
  {
    hide Swapped;
    if recs != [] && fuel > 0 {
      if Free(f[a]) < CELLS {
        SlotStays(f[a := f[a][Free(f[a]) := recs[0]]], a, recs[1..], resaved, fuel - 1);
      } else {
        var s := Saves(Swapped(f, a, recs[0]), 1 - a, resaved, resaved, fuel - 1);
        if s.Some? && s.value.1 < 2 {
          SlotStays(s.value.0, s.value.1, recs[1..], resaved, fuel - 1);
        }
      }
    }
  }

  lemma SwapUnfolds(f: Flash, a: nat, r: Rec, resaved: seq<Rec>, fuel: nat)
    requires a < 2 && Full(f, a)
    requires Saves(Swapped(f, a, r), 1 - a, resaved, resaved, fuel).Some?
    ensures Saves(f, a, [r], resaved, fuel + 1).Some?
  {
    hide Swapped;
    SlotStays(Swapped(f, a, r), 1 - a, resaved, resaved, fuel);
    assert [r][1..] == [];
  }
}
