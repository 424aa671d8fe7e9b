/** system/app_data.cpp from the end of the restore on: items, flags and the EEPROM changed in place,
    with other tasks setting items wherever they may preempt the saver. */
module AppData {
  import opened Common
  import opened SaverModel

  /** What other tasks set at the k-th point where they may preempt the saver. */
  type Others = nat -> seq<(nat, U16)>

  ghost predicate Still(o: Others) {
    forall k: nat :: o(k) == []
  }

  class Settings {
    const items: array<U16>
    const flags: array<bool>

    /** The words the EEPROM driver keeps, one a register. */
    const eeprom: array<U16>
    var paramChanged: bool
    var stage: Stage
    var index: nat
    var cooldownTimer: nat

    /** The tick count at the saver's last step, how far the current save has come, and what was changed. */
    ghost var lastStep: nat
    ghost var write: Write
    ghost var touched: set<nat>
    var points: nat

    ghost predicate Valid()
      reads this
    {
      && items.Length == ITEMS && flags.Length == PRESETS && eeprom.Length == ITEMS && items != eeprom
      && flags as object != items as object && flags as object != eeprom as object
      && cooldownTimer < TICKS && lastStep < TICKS
    }

    ghost function State(): Saver
      requires Valid()
      reads this, items, flags, eeprom
    {
      Saver(items[..], flags[..], paramChanged, stage, index, write, Since(cooldownTimer, lastStep),
            eeprom[..], touched)
    }

    /** Restored settings with no change pending; the EEPROM may hold anything. */
    constructor (restored: seq<U16>, stored: seq<U16>)
      requires |restored| == ITEMS && |stored| == ITEMS
      ensures Valid() && fresh(items) && fresh(flags) && fresh(eeprom)
      ensures Inv(State()) && stage == Monitor && touched == {}
    {
      items := new U16[ITEMS](i requires 0 <= i < ITEMS => restored[i]);
      flags := new bool[PRESETS](i => false);
      eeprom := new U16[ITEMS](i requires 0 <= i < ITEMS => stored[i]);
      paramChanged, stage, index, cooldownTimer, points := false, Monitor, 0, 0, 0;
      lastStep, write, touched := 0, Idle, {};
      new;
      PresetIds();
    }

    /** `app_data_idx_from_id_get`. */
    method IndexFromId(id: nat) returns (k: nat)
      ensures k == IndexOf(id, 0)
    {
      PresetIds();
      k := 0;
      while k < PRESETS && PRESET_ID[k] != id
        invariant k <= PRESETS && IndexOf(id, 0) == IndexOf(id, k)
      {
        k := k + 1;
      }
    }

    /** `app_data_param_add_to_save_queue`. */
    method AddToSaveQueue(id: nat) returns (ok: bool)
      requires Valid()
      modifies this`touched, flags
      ensures var k := IndexOf(id, 0);
        && ok == (k < PRESETS)
        && flags[..] == (if ok then old(flags[..])[k := true] else old(flags[..]))
        && touched == if ok then old(touched) + {k} else old(touched)
    {
      var k := IndexFromId(id);
      ok := false;
      if k < PRESETS {
        flags[k] := true;
        touched := touched + {k};
        ok := true;
      }
    }

    /** `app_data_item_set`. */
    method ItemSet(id: nat, value: U16)
      requires Valid() && Inv(State())
      modifies this`paramChanged, this`touched, items, flags
      ensures Valid() && State() == Set(old(State()), id, value)
    {
      hide Inv;
      SizedOf(State());
      if id < ITEMS && items[id] != value {
        items[id] := value;
        assert eeprom[..] == old(eeprom[..]) && flags[..] == old(flags[..]) && items[..] == old(items[..])[id := value];
        var queued := AddToSaveQueue(id);
        if queued {
          paramChanged := true;
        }
        assert items[..] == old(items[..])[id := value] && eeprom[..] == old(eeprom[..]);
      }
    }

    /** Other tasks run here. */
    method Preempt(o: Others)
      requires Valid() && Inv(State())
      modifies this`paramChanged, this`touched, this`points, items, flags
      ensures Valid() && Inv(State()) && (Still(o) ==> State() == old(State()))
      ensures old(paramChanged) ==> paramChanged
    {
      hide Inv;
      var sets := o(points);
      points := points + 1;
      for k := 0 to |sets|
        invariant Valid() && Inv(State()) && (Still(o) ==> State() == old(State()))
        invariant old(paramChanged) ==> paramChanged
      {
        SizedOf(State());
        StepKeepsInv(State(), SetItem(sets[k].0, sets[k].1));
        ItemSet(sets[k].0, sets[k].1);
      }
    }

    /** `app_data_item_save`: the value is read and then written, word by word over a slow bus. */
    method ItemSave(o: Others)
      requires Valid() && Inv(State()) && stage == Save && write == Cleared
      modifies this`paramChanged, this`touched, this`points, this`write, items, flags, eeprom
      ensures Valid() && Inv(State()) && write == Passed
      ensures Still(o) ==> State() == Store(Latch(old(State())))
    {
      hide Inv;
      PresetIds();
      SizedOf(State());
      StepKeepsInv(State(), LatchStep);
      var value := items[PRESET_ID[index]];
      write := Latched(value);
      Preempt(o);
      SizedOf(State());
      StepKeepsInv(State(), StoreStep);
      ghost var before := State();
      eeprom[PRESET_ID[index]] := value;
      assert eeprom[..] == before.eeprom[PRESET_ID[index] := value];
      assert items[..] == before.items && flags[..] == before.flags;
      write := Passed;
    }

    /** The flag of the current preset is taken and its item saved. */
    method SaveFlagged(o: Others)
      requires Valid() && Inv(State()) && stage == Save && write == Idle
      modifies this`paramChanged, this`touched, this`points, this`write, items, flags, eeprom
      ensures Valid() && Inv(State()) && write == Passed
      ensures Still(o) ==> var l := Look(old(State())); State() == if l.write == Cleared then Store(Latch(l)) else l
    {
      hide Inv, Latch, Store, Advance, Set, Watch;
      SizedOf(State());
      StepKeepsInv(State(), LookStep);
      ghost var s := State();
      if flags[index] {
        flags[index] := false;
        write := Cleared;
        assert flags[..] == s.flags[index := false] && items[..] == s.items && eeprom[..] == s.eeprom;
        Preempt(o);
        ItemSave(o);
      } else {
        write := Passed;
      }
    }

    /** On to the next preset, or back to watching. */
    method Move(now: nat)
      requires Valid() && Inv(State()) && stage == Save && write == Passed && now < TICKS
      modifies this
      ensures Valid() && Inv(State()) && write == Idle && State() == Advance(old(State()))
    {
      hide Inv;
      SizedOf(State());
      StepKeepsInv(State(), AdvanceStep);
      index := index + 1;
      write := Idle;
      if index >= PRESETS {
        cooldownTimer := now;
        index := 0;
        stage := Monitor;
        lastStep := now;
      }
    }

    /** The save stage: one preset, and on to the next. */
    method SaveOne(now: nat, o: Others)
      requires Valid() && Inv(State()) && stage == Save && write == Idle && now < TICKS
      modifies this, items, flags, eeprom
      ensures Valid() && Inv(State()) && write == Idle
      ensures Still(o) ==> State() == Proc(old(State()), 0)
    {
      hide Inv, Look, Store, Latch, Set, Watch, Advance;
      SizedOf(State());
      Preempt(o);
      SaveFlagged(o);
      Preempt(o);
      Move(now);
    }

    /** One step outside the save stage. */
    method WatchOne(now: nat)
      requires Valid() && Inv(State()) && stage != Save && now < TICKS
      modifies this
      ensures Valid() && Inv(State()) && write == Idle
      ensures State() == Watch(old(State()), Since(old(lastStep), now))
      ensures stage == Save ==>
        old(stage) == Cooldown && !old(paramChanged) && Since(old(cooldownTimer), now) >= 2500
    {
      hide Inv, Since;
      SizedOf(State());
      StepKeepsInv(State(), WatchStep(Since(lastStep, now)));
      WatchWrites(State(), Since(lastStep, now));
      GapAdds(lastStep, cooldownTimer, now);
      match stage {
        case Monitor =>
          if paramChanged {
            paramChanged := false;
            cooldownTimer := now;
            stage := Cooldown;
          }
        case Cooldown =>
          if paramChanged {
            stage := Monitor;
          } else if Since(cooldownTimer, now) >= COOLDOWN {
            stage := Save;
          }
      }
      lastStep := now;
    }

    /** `app_data_task_proc` once the settings are restored, at tick count `now`. */
    method TaskProc(now: nat, o: Others)
      requires Valid() && Inv(State()) && write == Idle && now < TICKS
      modifies this, items, flags, eeprom
      ensures Valid() && Inv(State()) && write == Idle
      ensures Still(o) ==> State() == Proc(old(State()), Since(old(lastStep), now))
      ensures old(stage) != Save ==> eeprom[..] == old(eeprom[..])
      ensures old(stage) != Save && stage == Save ==>
        old(stage) == Cooldown && !old(paramChanged) && Since(old(cooldownTimer), now) >= 2500
    {
      hide Inv, Look, Latch, Store, Advance, Set, Watch;
      SizedOf(State());
      if stage == Save {
        SaveOne(now, o);
      } else {
        Preempt(o);
        WatchOne(now);
      }
    }
  }

  /** Time passed in 32-bit ticks. */
  function Since(mark: nat, now: nat): (t: nat)
    ensures t < TICKS && (now == mark ==> t == 0)
  {
    (now - mark) % TICKS
  }

  /** Seven ticks from two before the counter's wrap to five after it. */
  lemma SinceWraps()
    ensures Since(0xFFFF_FFFE, 5) == 7 && Since(5, 0xFFFF_FFFE) == 0xFFFF_FFF9
  {
  }

  /** Elapsed time adds up across the wrap. */
  lemma GapAdds(last: nat, mark: nat, now: nat)
    ensures (Since(mark, last) + Since(last, now)) % TICKS == Since(mark, now)
  {
  }
}
