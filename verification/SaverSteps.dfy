/** The saver against setters taken apart: `app_data_item_set` stores the item, raises the preset's flag and announces
    the change in three steps, the saver tests and clears the announcement and changes its stage in as many, and any
    task may come between any two. */
module SaverSteps {
  import opened Common
  import opened SaverModel

  /** How far a call of the saver outside the save stage has come. */
  datatype Watching =
    | Away
    | Noticed    // an announcement seen
    | Cleared    // and taken back, the cooldown not begun
    | Disturbed  // an announcement seen during the cooldown
    | Quiet      // none seen, the time not looked at

  /** The presets whose flag some setter is still to raise, and how many setters are still to announce. */
  datatype Shared = Shared(saver: Saver, watching: Watching, toFlag: multiset<nat>, toAnnounce: nat)

  datatype Event =
    | StoreItem(id: nat, v: U16) | RaiseFlag(k: nat) | Announce
    | Test(gap: nat) | TakeBack | CoolDown | StartOver(gap: nat) | LookAtTime(gap: nat)
    | Own(step: Step)

  predicate Enabled(f: Shared, e: Event)
    requires Sized(f.saver)
  {
    match e
    case StoreItem(id, v) => true
    case RaiseFlag(k) => k in f.toFlag && k < PRESETS
    case Announce => f.toAnnounce > 0
    case Test(_) => f.watching == Away && f.saver.stage != Save
    case TakeBack => f.watching == Noticed
    case CoolDown => f.watching == Watching.Cleared
    case StartOver(_) => f.watching == Disturbed
    case LookAtTime(_) => f.watching == Quiet
    case Own(step) => f.watching == Away && !step.SetItem? && !step.WatchStep? && SaverModel.Enabled(f.saver, step)
  }

  function Later(s: Saver, gap: nat): Saver {
    s.(elapsed := (s.elapsed + gap) % TICKS)
  }

  function Next(f: Shared, e: Event): Shared
    requires Sized(f.saver) && Enabled(f, e)
  {
    var s := f.saver;
    match e
    case StoreItem(id, v) =>
      if id >= ITEMS then f
      else
        var k := IndexOf(id, 0);
        var t := s.(items := s.items[id := v]);
        if k < PRESETS then f.(saver := t.(touched := t.touched + {k}), toFlag := f.toFlag + multiset{k})
        else f.(saver := t)
    case RaiseFlag(k) =>
      f.(saver := s.(flags := s.flags[k := true]), toFlag := f.toFlag - multiset{k}, toAnnounce := f.toAnnounce + 1)
    case Announce => f.(saver := s.(changed := true), toAnnounce := f.toAnnounce - 1)
    case Test(gap) =>
      if s.stage == Monitor then
        if s.changed then f.(watching := Noticed) else f.(saver := Later(s, gap))
      else f.(watching := if s.changed then Disturbed else Quiet)
    case TakeBack => f.(saver := s.(changed := false), watching := Watching.Cleared)
    case CoolDown => f.(saver := s.(stage := Cooldown, elapsed := 0), watching := Away)
    case StartOver(gap) => f.(saver := Later(s, gap).(stage := Monitor), watching := Away)
    case LookAtTime(gap) =>
      var t := Later(s, gap);
      f.(saver := if t.elapsed >= COOLDOWN then t.(stage := Save) else t, watching := Away)
    case Own(step) => f.(saver := Act(s, step))
  }

  /** A call of the saver with nothing in between is the whole step. */
  lemma WatchIsSplit(s: Saver, gap: nat)
    requires Sized(s) && s.stage != Save
    ensures var f := Next(Shared(s, Away, multiset{}, 0), Test(gap));
      var g := match f.watching
        case Away => f
        case Noticed => Next(Next(f, TakeBack), CoolDown)
        case Cleared => f
        case Disturbed => Next(f, StartOver(gap))
        case Quiet => Next(f, LookAtTime(gap));
      g == Shared(Watch(s, gap), Away, multiset{}, 0)
  {
  }

  /** A changed preset is safe or about to be flagged. */
  predicate Covered(f: Shared, k: nat)
    requires Sized(f.saver) && k < PRESETS
  {
    k in f.saver.touched ==> Safe(f.saver, k) || k in f.toFlag
  }

  /** A flagged preset has announced itself, or some announcement is on its way or was just taken back. */
  predicate Heralded(f: Shared, k: nat)
    requires Sized(f.saver) && k < PRESETS
  {
    Announced(f.saver, k) || f.toAnnounce > 0 || f.watching.Cleared?
  }

  /** What the saver has seen still holds: only the saver takes announcements back and changes the stage. */
  predicate Watched(f: Shared) {
    match f.watching
    case Away => true
    case Noticed => f.saver.stage == Monitor && f.saver.changed
    case Cleared => f.saver.stage == Monitor
    case Disturbed => f.saver.stage == Cooldown && f.saver.changed
    case Quiet => f.saver.stage == Cooldown
  }

  predicate Pending(f: Shared) {
    && Sized(f.saver) && Shaped(f.saver) && Watched(f)
    && forall k: nat :: k < PRESETS ==> Covered(f, k) && Heralded(f, k)
  }

  lemma StoreCovers(f: Shared, id: nat, v: U16, k: nat)
    requires Sized(f.saver) && k < PRESETS && Covered(f, k) && Heralded(f, k)
    ensures var g := Next(f, StoreItem(id, v)); Sized(g.saver) && Covered(g, k) && Heralded(g, k)
  {
    PresetIds();
    if id < ITEMS && IndexOf(id, 0) != k {
      assert PRESET_ID[k] != id;
    }
  }

  lemma FlagCovers(f: Shared, j: nat, k: nat)
    requires Sized(f.saver) && k < PRESETS && Covered(f, k) && Heralded(f, k) && Enabled(f, RaiseFlag(j))
    ensures var g := Next(f, RaiseFlag(j)); Sized(g.saver) && Covered(g, k) && Heralded(g, k)
  {
  }

  lemma AnnounceCovers(f: Shared, k: nat)
    requires Sized(f.saver) && k < PRESETS && Covered(f, k) && Heralded(f, k) && Enabled(f, Announce)
    ensures var g := Next(f, Announce); Sized(g.saver) && Covered(g, k) && Heralded(g, k)
  {
  }

  /** The steps of the saver outside the save stage. */
  lemma WatchCovers(f: Shared, e: Event, k: nat)
    requires Sized(f.saver) && Shaped(f.saver) && Watched(f) && k < PRESETS && Covered(f, k) && Heralded(f, k)
    requires Enabled(f, e) && (e.Test? || e.TakeBack? || e.CoolDown? || e.StartOver? || e.LookAtTime?)
    ensures var g := Next(f, e); Sized(g.saver) && Covered(g, k) && Heralded(g, k)
  {
  }

  lemma OwnCovers(f: Shared, step: Step, k: nat)
    requires Sized(f.saver) && Shaped(f.saver) && k < PRESETS && Covered(f, k) && Heralded(f, k)
    requires Enabled(f, Own(step))
    ensures var g := Next(f, Own(step)); Sized(g.saver) && Covered(g, k) && Heralded(g, k)
  {
    hide Safe, Announced;
    OwnStepKeeps(f.saver, step, k);
  }

  lemma StepShapes(f: Shared, e: Event)
    requires Sized(f.saver) && Shaped(f.saver) && Watched(f) && Enabled(f, e)
    ensures var g := Next(f, e); Sized(g.saver) && Shaped(g.saver) && Watched(g)
  {
    if e.Own? {
      OwnStepKeeps(f.saver, e.step, 0);
    }
  }

  /** Every step of every task keeps each change safe or about to be flagged, and announced or about to be. */
  lemma EventKeepsPending(f: Shared, e: Event)
    requires Pending(f) && Enabled(f, e)
    ensures Pending(Next(f, e))
  {
    hide Enabled, Next, Safe, Announced, Covered, Heralded, Watched;
    StepShapes(f, e);
    forall k: nat | k < PRESETS
      ensures Covered(Next(f, e), k) && Heralded(Next(f, e), k)
    {
      match e {
        case StoreItem(id, v) => StoreCovers(f, id, v, k);
        case RaiseFlag(j) => FlagCovers(f, j, k);
        case Announce => AnnounceCovers(f, k);
        case Own(step) => OwnCovers(f, step, k);
        case _ => WatchCovers(f, e, k);
      }
    }
  }

  predicate Possible(f: Shared, run: seq<Event>)
    requires Pending(f)
    decreases run
  {
    run == [] || (Enabled(f, run[0]) && (EventKeepsPending(f, run[0]); Possible(Next(f, run[0]), run[1..])))
  }

  function After(f: Shared, run: seq<Event>): (g: Shared)
    requires Pending(f) && Possible(f, run)
    ensures Pending(g)
    decreases run
  {
    if run == [] then f
    else
      EventKeepsPending(f, run[0]);
      After(Next(f, run[0]), run[1..])
  }

  /** Neither a setter nor the watching saver is in the middle of a call. */
  predicate AtRest(f: Shared) {
    f.watching == Away && f.toFlag == multiset{} && f.toAnnounce == 0
  }

  /** Where no call is under way the invariant of whole sets holds, and no more. */
  lemma RestIsInv(f: Shared)
    requires AtRest(f)
    ensures Pending(f) <==> Inv(f.saver)
  {
    hide Safe, Announced, Shaped;
    if Sized(f.saver) {
      forall k: nat | k < PRESETS
        ensures Covered(f, k) <==> (k in f.saver.touched ==> Safe(f.saver, k))
        ensures Heralded(f, k) <==> Announced(f.saver, k)
      {
      }
    }
  }

  /** The saver with no call under way. */
  function Rested(s: Saver): (f: Shared)
    requires Inv(s)
    ensures Pending(f) && AtRest(f) && f.saver == s
  {
    RestIsInv(Shared(s, Away, multiset{}, 0));
    Shared(s, Away, multiset{}, 0)
  }

  /** However setters and saver interleave, once every call has returned, 46 undisturbed calls of the saver bring
      every changed setting into the EEPROM. */
  lemma AllSettles(s: Saver, run: seq<Event>, gaps: seq<nat>)
    requires Inv(s) && Possible(Rested(s), run) && Paced(gaps) && |gaps| >= 46
    requires var f := After(Rested(s), run);
      AtRest(f) && (f.saver.stage == Save ==> f.saver.write == Idle)
    ensures var t := After(Rested(s), run).saver;
      Inv(t) && Saved(Undisturbed(t, gaps))
  {
    hide Inv, Pending, After, Undisturbed, Saved, Paced;
    var f := After(Rested(s), run);
    RestIsInv(f);
    SizedOf(f.saver);
    StepApproaches(f.saver, 100);
    Settles(f.saver, gaps);
  }

  // ---- not before the changes have stopped ----------------------------------------------------

  function Gap(e: Event): nat {
    match e
    case Test(gap) => gap
    case StartOver(gap) => gap
    case LookAtTime(gap) => gap
    case _ => 0
  }

  function Ticks(run: seq<Event>): nat
    decreases run
  {
    if run == [] then 0 else Gap(run[0]) + Ticks(run[1..])
  }

  /** The ticks that must still pass before the save stage. A saver that has already seen no change does not look
      again. */
  function Remaining(f: Shared): nat {
    var s := f.saver;
    if s.stage == Cooldown && f.watching != Disturbed && (f.watching == Quiet || !s.changed) && s.elapsed < 2500
    then 2500 - s.elapsed else 2500
  }

  lemma EventWaits(f: Shared, e: Event)
    requires Sized(f.saver) && Shaped(f.saver) && Watched(f) && Enabled(f, e) && f.saver.stage != Save
    ensures var g := Next(f, e);
      && g.saver.eeprom == f.saver.eeprom
      && (g.saver.stage == Save ==> f.watching == Quiet && Gap(e) >= Remaining(f))
      && (g.saver.stage != Save ==> Remaining(g) + Gap(e) >= Remaining(f))
  {
  }

  /** However setters and saver interleave, the EEPROM is left alone until those ticks have passed. */
  lemma {:induction false} RunWaits(f: Shared, run: seq<Event>)
    requires Pending(f) && Possible(f, run) && f.saver.stage != Save && Ticks(run) < Remaining(f)
    ensures var g := After(f, run);
      g.saver.stage != Save && g.saver.eeprom == f.saver.eeprom && Remaining(g) + Ticks(run) >= Remaining(f)
    decreases run
  {
    hide Pending, Next, Enabled, Remaining;
    if run != [] {
      PendingParts(f);
      EventWaits(f, run[0]);
      EventKeepsPending(f, run[0]);
      RunWaits(Next(f, run[0]), run[1..]);
    }
  }

  lemma PendingParts(f: Shared)
    requires Pending(f)
    ensures Sized(f.saver) && Shaped(f.saver) && Watched(f)
  {
  }

  /** Once a change is announced to a saver that has not just looked, the EEPROM is left alone for 2500 ticks. */
  lemma AnnouncedWaits(f: Shared, run: seq<Event>)
    requires Pending(f) && Enabled(f, Announce) && f.saver.stage != Save && f.watching != Quiet
    requires (EventKeepsPending(f, Announce); Possible(Next(f, Announce), run)) && Ticks(run) < 2500
    ensures var g := After(Next(f, Announce), run); g.saver.stage != Save && g.saver.eeprom == f.saver.eeprom
  {
    hide Pending, Possible, After;
    PendingParts(f);
    EventKeepsPending(f, Announce);
    RunWaits(Next(f, Announce), run);
  }
}
