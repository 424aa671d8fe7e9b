/** The write-behind saver of system/app_data.cpp: settings changed by other tasks reach the EEPROM
    after a quiet period, one per step of its task. */
module SaverModel {
  import opened Common

  const ITEMS := 26
  const PRESETS := 10
  const COOLDOWN := 2500
  const TICKS := 0x1_0000_0000

  // Item numbers as `enum AppData` counts them.
  const MBUS_SLAVE_ID := 0
  const COMM_REG_START_ADDR := 2
  const COMM_REG_TOTAL_QUAN := 3
  const COMM_REG_SCROLL_VAL := 4
  const SERIAL_BAUDRATE := 6
  const SERIAL_DATABITS := 7
  const SERIAL_PARITY := 8
  const SERIAL_STOPBITS := 9
  const IFACE_DEFAULT_FORMAT := 10
  const IFACE_SCROLL_MODE := 11

  /** Item numbers of the presets, in table order. */
  const PRESET_ID: seq<nat> :=
    [MBUS_SLAVE_ID, SERIAL_BAUDRATE, SERIAL_DATABITS, SERIAL_STOPBITS, SERIAL_PARITY, COMM_REG_START_ADDR,
     COMM_REG_TOTAL_QUAN, COMM_REG_SCROLL_VAL, IFACE_DEFAULT_FORMAT, IFACE_SCROLL_MODE]

  lemma PresetIds()
    ensures PRESET_ID == [0, 6, 7, 9, 8, 2, 3, 4, 10, 11]
    ensures |PRESET_ID| == PRESETS
    ensures forall k :: 0 <= k < PRESETS ==> PRESET_ID[k] < ITEMS
    ensures forall j, k :: 0 <= j < k < PRESETS ==> PRESET_ID[j] != PRESET_ID[k]
  {
  }

  /** Where an item stands in the preset table; the table's length when it does not. */
  function IndexOf(id: nat, from: nat): (k: nat)
    requires from <= PRESETS && |PRESET_ID| == PRESETS
    ensures from <= k <= PRESETS && (k < PRESETS ==> PRESET_ID[k] == id)
    ensures forall j :: from <= j < k ==> PRESET_ID[j] != id
    decreases PRESETS - from
  {
    if from == PRESETS || PRESET_ID[from] == id then from else IndexOf(id, from + 1)
  }

  datatype Stage = Monitor | Cooldown | Save

  /** How far the saver has come with the current preset. */
  datatype Write = Idle | Cleared | Latched(value: U16) | Passed

  /** `elapsed` is the time from the cooldown mark to the saver's last step; `touched` are the presets
      changed since the settings were restored. */
  datatype Saver = Saver(items: seq<U16>, flags: seq<bool>, changed: bool, stage: Stage, index: nat,
                         write: Write, elapsed: nat, eeprom: seq<U16>, touched: set<nat>)

  predicate Sized(s: Saver) {
    && |s.items| == ITEMS && |s.flags| == PRESETS && |s.eeprom| == ITEMS && |PRESET_ID| == PRESETS
    && s.index < PRESETS && (forall k :: k in s.touched ==> k < PRESETS)
  }

  function Kept(s: Saver, k: nat): U16
    requires Sized(s) && k < PRESETS
  {
    PresetIds();
    s.eeprom[PRESET_ID[k]]
  }

  function Wanted(s: Saver, k: nat): U16
    requires Sized(s) && k < PRESETS
  {
    PresetIds();
    s.items[PRESET_ID[k]]
  }

  /** A changed preset is flagged, equal in the EEPROM, or on its way there with its current value. */
  predicate Safe(s: Saver, k: nat)
    requires Sized(s) && k < PRESETS
  {
    s.flags[k] ||
    (if s.stage == Save && k == s.index && s.write.Cleared? then true
     else if s.stage == Save && k == s.index && s.write.Latched? then s.write.value == Wanted(s, k)
     else Kept(s, k) == Wanted(s, k))
  }

  /** A flagged preset the current pass will not reach has announced itself. */
  predicate Announced(s: Saver, k: nat)
    requires Sized(s) && k < PRESETS
  {
    s.flags[k] ==>
      (s.changed || s.stage == Cooldown
       || (s.stage == Save && (s.index < k || (s.index == k && s.write == Idle))))
  }

  /** Outside the save stage no pass is under way, and the cooldown ends in time. */
  predicate Shaped(s: Saver) {
    && (s.stage != Save ==> s.index == 0 && s.write == Idle)
    && (s.stage == Cooldown ==> s.elapsed < COOLDOWN)
  }

  predicate Inv(s: Saver) {
    && Sized(s) && Shaped(s)
    && (forall k :: k in s.touched ==> Safe(s, k))
    && (forall k :: 0 <= k < PRESETS ==> Announced(s, k))
  }

  // ---- steps --------------------------------------------------------------------------------

  /** `app_data_item_set`, as one step. */
  function Set(s: Saver, id: nat, v: U16): Saver
    requires Sized(s)
  {
    if id >= ITEMS || s.items[id] == v then s
    else
      var k := IndexOf(id, 0);
      var t := s.(items := s.items[id := v]);
      if k < PRESETS then t.(flags := t.flags[k := true], changed := true, touched := t.touched + {k}) else t
  }

  /** The flag of the current preset is looked at and cleared, its value read, and the value written;
      another task may come between any two of these. */
  function Look(s: Saver): Saver
    requires Sized(s)
  {
    if s.flags[s.index] then s.(flags := s.flags[s.index := false], write := Cleared) else s.(write := Passed)
  }

  function Latch(s: Saver): Saver
    requires Sized(s)
  {
    s.(write := Latched(Wanted(s, s.index)))
  }

  function Store(s: Saver): Saver
    requires Sized(s) && s.write.Latched?
  {
    PresetIds();
    s.(eeprom := s.eeprom[PRESET_ID[s.index] := s.write.value], write := Passed)
  }

  /** The pass moves on, or ends. */
  function Advance(s: Saver): Saver {
    if s.index + 1 >= PRESETS then s.(index := 0, write := Idle, stage := Monitor, elapsed := 0)
    else s.(index := s.index + 1, write := Idle)
  }

  /** A step of the saver outside the save stage, `gap` ticks after its previous step. */
  function Watch(s: Saver, gap: nat): Saver {
    var e := (s.elapsed + gap) % TICKS;
    match s.stage
    case Monitor => if s.changed then s.(changed := false, stage := Cooldown, elapsed := 0) else s.(elapsed := e)
    case Cooldown =>
      if s.changed then s.(stage := Monitor, elapsed := e)
      else if e >= COOLDOWN then s.(stage := Save, elapsed := e)
      else s.(elapsed := e)
    case Save => s
  }

  datatype Step = SetItem(id: nat, v: U16) | WatchStep(gap: nat) | LookStep | LatchStep | StoreStep | AdvanceStep

  predicate Enabled(s: Saver, a: Step)
    requires Sized(s)
  {
    match a
    case SetItem(_, _) => true
    case WatchStep(gap) => s.stage != Save
    case LookStep => s.stage == Save && s.write == Idle
    case LatchStep => s.stage == Save && s.write == Cleared
    case StoreStep => s.stage == Save && s.write.Latched?
    case AdvanceStep => s.stage == Save && s.write == Passed
  }

  function Act(s: Saver, a: Step): Saver
    requires Sized(s) && Enabled(s, a)
  {
    match a
    case SetItem(id, v) => Set(s, id, v)
    case WatchStep(gap) => Watch(s, gap)
    case LookStep => Look(s)
    case LatchStep => Latch(s)
    case StoreStep => Store(s)
    case AdvanceStep => Advance(s)
  }

  /** There are 26 items; a set of any other number is ignored, and a set of one that is no preset is not flagged. */
  lemma SetBounds(s: Saver, id: nat, v: U16)
    requires Sized(s)
    ensures id >= 26 ==> Set(s, id, v) == s
    ensures id < 26 ==> Set(s, id, v).items == s.items[id := v]
    ensures id < 26 && id !in {0, 2, 3, 4, 6, 7, 8, 9, 10, 11} ==> Set(s, id, v) == s.(items := s.items[id := v])
  {
    PresetIds();
  }

  lemma SetKeepsInv(s: Saver, id: nat, v: U16)
    requires Inv(s)
    ensures Inv(Set(s, id, v))
  {
    PresetIds();
    var t := Set(s, id, v);
    if id < ITEMS && s.items[id] != v {
      var i := IndexOf(id, 0);
      forall k | k in t.touched
        ensures Safe(t, k)
      {
        if k != i {
          assert k in s.touched && Safe(s, k);
          assert PRESET_ID[k] != id;
        }
      }
      forall k | 0 <= k < PRESETS
        ensures Announced(t, k)
      {
        assert Announced(s, k);
      }
    }
  }

  /** A step of the saver itself leaves each preset safe and announced that was so. */
  lemma OwnStepKeeps(s: Saver, a: Step, k: nat)
    requires Sized(s) && Shaped(s) && Enabled(s, a) && !a.SetItem? && k < PRESETS
    ensures var t := Act(s, a);
      && Sized(t) && Shaped(t) && t.touched == s.touched && t.items == s.items
      && (Safe(s, k) ==> Safe(t, k)) && (Announced(s, k) ==> Announced(t, k))
  {
    PresetIds();
  }

  lemma StepKeepsInv(s: Saver, a: Step)
    requires Inv(s) && Enabled(s, a)
    ensures Inv(Act(s, a))
  {
    if a.SetItem? {
      SetKeepsInv(s, a.id, a.v);
    } else {
      hide Act, Safe, Announced, Enabled;
      OwnStepKeeps(s, a, 0);
      forall k | 0 <= k < PRESETS
        ensures Safe(s, k) ==> Safe(Act(s, a), k)
        ensures Announced(s, k) ==> Announced(Act(s, a), k)
      {
        OwnStepKeeps(s, a, k);
      }
    }
  }

  // ---- runs ---------------------------------------------------------------------------------

  predicate Possible(s: Saver, run: seq<Step>)
    requires Inv(s)
    decreases run
  {
    run == [] ||
    (Enabled(s, run[0]) && (StepKeepsInv(s, run[0]); Possible(Act(s, run[0]), run[1..])))
  }

  function After(s: Saver, run: seq<Step>): (t: Saver)
    requires Inv(s) && Possible(s, run)
    ensures Inv(t)
    decreases run
  {
    if run == [] then s
    else
      StepKeepsInv(s, run[0]);
      After(Act(s, run[0]), run[1..])
  }

  /** After any run of both tasks, a changed setting that is neither flagged nor being written is the
      same in the EEPROM and in memory; and a flag the pass will miss has asked for another pass. */
  lemma NothingForgotten(s: Saver, run: seq<Step>, k: nat)
    requires Inv(s) && Possible(s, run) && k < PRESETS
    ensures var t := After(s, run);
      && (k in t.touched && !t.flags[k] && !(t.stage == Save && t.index == k) ==> Kept(t, k) == Wanted(t, k))
      && (t.flags[k] && !t.changed ==> t.stage == Cooldown || (t.stage == Save && t.index <= k))
  {
    hide After, Kept, Wanted;
    var t := After(s, run);
    assert Announced(t, k);
    if k in t.touched {
      assert Safe(t, k);
    }
  }

  // ---- not before the changes have stopped ----------------------------------------------------

  /** Ticks that pass up to the end of a step. */
  function Gap(a: Step): nat {
    if a.WatchStep? then a.gap else 0
  }

  function Ticks(run: seq<Step>): nat
    decreases run
  {
    if run == [] then 0 else Gap(run[0]) + Ticks(run[1..])
  }

  /** Outside the save stage, the ticks that must still pass before it: all 2500 unless the cooldown has begun and no
      change was announced since. */
  function Remaining(s: Saver): nat {
    if s.stage == Cooldown && !s.changed && s.elapsed < 2500 then 2500 - s.elapsed else 2500
  }

  /** The save stage is entered only once those ticks have passed, and no other step shortens them by more than the
      ticks it takes. */
  lemma StepWaits(s: Saver, a: Step)
    requires Sized(s) && Shaped(s) && Enabled(s, a) && s.stage != Save
    ensures var t := Act(s, a);
      && t.eeprom == s.eeprom && t.touched >= s.touched
      && (t.stage == Save ==> s.stage == Cooldown && !s.changed && Gap(a) >= Remaining(s))
      && (t.stage != Save ==> Remaining(t) + Gap(a) >= Remaining(s))
  {
  }

  /** Along any run that is too short for that, whatever is set meanwhile, the EEPROM is left alone. */
  lemma {:induction false} RunWaits(s: Saver, run: seq<Step>)
    requires Inv(s) && Possible(s, run) && s.stage != Save && Ticks(run) < Remaining(s)
    ensures var t := After(s, run);
      t.stage != Save && t.eeprom == s.eeprom && Remaining(t) + Ticks(run) >= Remaining(s)
    decreases run
  {
    hide Inv, Act, Enabled, Remaining;
    if run != [] {
      SizedOf(s);
      ShapedOf(s);
      StepWaits(s, run[0]);
      StepKeepsInv(s, run[0]);
      RunWaits(Act(s, run[0]), run[1..]);
    }
  }

  lemma ShapedOf(s: Saver)
    requires Inv(s)
    ensures Shaped(s)
  {
  }

  /** A change of a preset outside the save stage is followed by at least 2500 ticks without a write to the EEPROM. */
  lemma ChangeWaits(s: Saver, id: nat, v: U16, run: seq<Step>)
    requires Inv(s) && s.stage != Save && id < ITEMS && s.items[id] != v && IndexOf(id, 0) < PRESETS
    requires Inv(Set(s, id, v)) && Possible(Set(s, id, v), run) && Ticks(run) < 2500
    ensures var t := After(Set(s, id, v), run); t.stage != Save && t.eeprom == s.eeprom
  {
    hide Inv, Possible, After;
    SizedOf(s);
    RunWaits(Set(s, id, v), run);
  }

  // ---- once changes stop --------------------------------------------------------------------

  /** One call of the saver with no other task in between. */
  function Proc(s: Saver, gap: nat): Saver
    requires Sized(s) && (s.stage == Save ==> s.write == Idle)
  {
    if s.stage != Save then Watch(s, gap)
    else
      var l := Look(s);
      Advance(if l.write == Cleared then Store(Latch(l)) else l)
  }

  lemma ProcKeepsInv(s: Saver, gap: nat)
    requires Inv(s) && (s.stage == Save ==> s.write == Idle)
    ensures var t := Proc(s, gap); Inv(t) && (t.stage == Save ==> t.write == Idle)
  {
    hide Inv, Watch, Look, Latch, Store, Advance;
    SizedOf(s);
    if s.stage != Save {
      StepKeepsInv(s, WatchStep(gap));
      WatchWrites(s, gap);
    } else {
      PassKeepsInv(s);
    }
  }

  lemma SizedOf(s: Saver)
    requires Inv(s)
    ensures Sized(s)
  {
  }

  lemma WatchWrites(s: Saver, gap: nat)
    requires Inv(s) && s.stage != Save
    ensures Watch(s, gap).write == Idle
  {
  }

  lemma PassKeepsInv(s: Saver)
    requires Inv(s) && s.stage == Save && s.write == Idle
    ensures Inv(Proc(s, 0)) && Proc(s, 0).write == Idle
  {
    hide Inv;
    SizedOf(s);
    StepKeepsInv(s, LookStep);
    var l := Look(s);
    SizedOf(l);
    if l.write == Cleared {
      StepKeepsInv(l, LatchStep);
      SizedOf(Latch(l));
      StepKeepsInv(Latch(l), StoreStep);
      SizedOf(Store(Latch(l)));
      StepKeepsInv(Store(Latch(l)), AdvanceStep);
    } else {
      StepKeepsInv(l, AdvanceStep);
    }
  }

  /** Task steps still needed to end a cooldown that has lasted `e` ticks, at 100 ticks a step. */
  function CoolSteps(e: nat): nat {
    if e >= COOLDOWN - 100 then 1 else (COOLDOWN - e + 99) / 100
  }

  /** An upper bound on the saver's steps until everything is saved. */
  function Distance(s: Saver): nat
    requires Sized(s)
  {
    match s.stage
    case Monitor => if s.changed then 36 else 0
    case Cooldown => if s.changed then 37 else CoolSteps(s.elapsed) + PRESETS
    case Save => PRESETS - s.index + if s.changed then 36 else 0
  }

  /** Each undisturbed step brings the end nearer, and at the end nothing is left to save. */
  lemma StepApproaches(s: Saver, gap: nat)
    requires Inv(s) && (s.stage == Save ==> s.write == Idle)
    requires 100 <= gap && gap + COOLDOWN < TICKS
    ensures Distance(s) > 0 ==> Sized(Proc(s, gap)) && Distance(Proc(s, gap)) < Distance(s)
    ensures Distance(s) == 0 ==> Sized(Proc(s, gap)) && Distance(Proc(s, gap)) == 0
    ensures Distance(s) <= 46
  {
    hide Safe, Announced, Kept, Wanted;
    PresetIds();
  }

  /** No flag is up and every changed setting is the same in the EEPROM and in memory. */
  predicate Saved(s: Saver) {
    && Sized(s)
    && (forall k :: 0 <= k < PRESETS ==> !s.flags[k])
    && (forall k :: k in s.touched ==> Kept(s, k) == Wanted(s, k))
  }

  /** So the register of each of the ten items that was changed holds the item. */
  lemma SavedMeans(s: Saver, id: nat)
    requires Saved(s) && id in {0, 2, 3, 4, 6, 7, 8, 9, 10, 11} && IndexOf(id, 0) in s.touched
    ensures s.eeprom[id] == s.items[id]
  {
    PresetIds();
    var k := IndexOf(id, 0);
    assert Kept(s, k) == Wanted(s, k);
  }

  /** And a change of one of them is remembered. */
  lemma ChangeTouches(s: Saver, id: nat, v: U16)
    requires Sized(s) && id in {0, 2, 3, 4, 6, 7, 8, 9, 10, 11} && s.items[id] != v
    ensures var k, t := IndexOf(id, 0), Set(s, id, v); k in t.touched && t.flags[k] && t.changed && t.items[id] == v
  {
    PresetIds();
  }

  lemma AtRest(s: Saver)
    requires Inv(s) && Distance(s) == 0
    ensures Saved(s)
  {
    forall k | 0 <= k < PRESETS
      ensures !s.flags[k]
    {
      assert Announced(s, k);
    }
    forall k | k in s.touched
      ensures Kept(s, k) == Wanted(s, k)
    {
      assert Safe(s, k);
    }
  }

  predicate Paced(gaps: seq<nat>) {
    forall i :: 0 <= i < |gaps| ==> 100 <= gaps[i] && gaps[i] + COOLDOWN < TICKS
  }

  function Undisturbed(s: Saver, gaps: seq<nat>): (t: Saver)
    requires Inv(s) && (s.stage == Save ==> s.write == Idle)
    ensures Inv(t) && (t.stage == Save ==> t.write == Idle)
    decreases gaps
  {
    if gaps == [] then s
    else
      ProcKeepsInv(s, gaps[0]);
      Undisturbed(Proc(s, gaps[0]), gaps[1..])
  }

  /** 46 undisturbed steps of the saver, each at least 100 ticks after the last, save every changed setting. */
  lemma {:induction false} Settles(s: Saver, gaps: seq<nat>)
    requires Inv(s) && (s.stage == Save ==> s.write == Idle) && Paced(gaps) && |gaps| >= Distance(s)
    ensures Saved(Undisturbed(s, gaps))
    decreases gaps
  {
    hide Inv, Proc, Distance, Saved;
    SizedOf(s);
    if gaps == [] {
      AtRest(s);
    } else {
      ProcKeepsInv(s, gaps[0]);
      StepApproaches(s, gaps[0]);
      Settles(Proc(s, gaps[0]), gaps[1..]);
    }
  }
}
