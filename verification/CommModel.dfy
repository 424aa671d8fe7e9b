/** The register cache of comm/inter_comm.cpp as a protocol: a communication task and a setter task
    acting on shared registers, and a slave that only this master writes. */
module CommModel {
  import opened Common

  const COUNT := 125
  const RECEIVE_FRAME := 32
  const TRANSMIT_FRAME := 8
  const ATTEMPTS := 5

  type Regs = s: seq<U16> | |s| == COUNT witness seq(COUNT, i => 0)

  /** Where the communication task is. */
  datatype Task =
    | Free
    | Storing(at: nat, got: seq<U16>)
    | Sending(at: nat, vals: seq<U16>)

  /** `dirty` are the locked registers, `slave` the slave's registers from the start address on, and
      `last` what the setter last asked for. */
  datatype Comm = Comm(cache: Regs, dirty: set<nat>, slave: Regs, task: Task, last: map<nat, U16>)

  predicate Sane(c: Comm) {
    && (forall i :: i in c.dirty ==> i < COUNT)
    && (forall i :: i in c.last ==> i < COUNT)
    && (c.task.Storing? ==> c.task.at + |c.task.got| <= COUNT)
    && (c.task.Sending? ==> c.task.at + |c.task.vals| <= COUNT && |c.task.vals| <= TRANSMIT_FRAME)
  }

  /** Register `i` is in the frame being sent. */
  predicate InFrame(c: Comm, i: nat) {
    c.task.Sending? && c.task.at <= i < c.task.at + |c.task.vals|
  }

  /** Register `i` is dirty, in the frame being sent, or the same in the cache and in the slave; in each case with
      the value last asked for. */
  predicate Holds(c: Comm, i: nat)
    requires i in c.last && i < COUNT
  {
    && c.cache[i] == c.last[i]
    && (i in c.dirty
        || (if InFrame(c, i) then c.task.vals[i - c.task.at] == c.last[i] else c.slave[i] == c.last[i]))
  }

  /** While a read is being stored the slave still holds what it answered. */
  predicate Steady(c: Comm) {
    c.task.Storing? ==>
      (c.task.at + |c.task.got| <= COUNT && c.task.got == c.slave[c.task.at..c.task.at + |c.task.got|])
  }

  predicate Fair(c: Comm) {
    Sane(c) && Steady(c)
  }

  /** The registers the setter has set whose value is nowhere any more. */
  function Lost(c: Comm): set<nat> {
    set i: nat | i in c.last && !(i < COUNT && Holds(c, i))
  }

  /** The registers are coherent. */
  predicate Inv(c: Comm) {
    Fair(c) && Lost(c) == {}
  }

  // ---- the atomic actions -------------------------------------------------------------------

  /** `InterCommDataSet`, as one step. */
  function Set(c: Comm, i: nat, v: U16): Comm {
    if i < COUNT then c.(dirty := c.dirty + {i}, cache := c.cache[i := v], last := c.last[i := v]) else c
  }

  /** A series of sets. */
  function SetAll(c: Comm, sets: seq<(nat, U16)>): Comm
    decreases sets
  {
    if sets == [] then c else SetAll(Set(c, sets[0].0, sets[0].1), sets[1..])
  }

  lemma {:induction false} SetAllAdds(c: Comm, sets: seq<(nat, U16)>, s: (nat, U16))
    ensures SetAll(c, sets + [s]) == Set(SetAll(c, sets), s.0, s.1)
    decreases sets
  {
    if sets == [] {
      assert sets + [s] == [s] && [s][1..] == [];
    } else {
      SetAllAdds(Set(c, sets[0].0, sets[0].1), sets[1..], s);
      assert (sets + [s])[1..] == sets[1..] + [s];
    }
  }

  /** The slave answers a read of `n` registers from `at`. */
  function Answer(c: Comm, at: nat, n: nat): Comm
    requires at + n <= COUNT
  {
    c.(task := Storing(at, c.slave[at..at + n]))
  }

  /** One turn of the storing loop: a locked register is left alone. */
  function Store(c: Comm): Comm
    requires c.task.Storing? && c.task.got != [] && c.task.at < COUNT
  {
    var t := c.task;
    c.(cache := if t.at in c.dirty then c.cache else c.cache[t.at := t.got[0]],
       task := Storing(t.at + 1, t.got[1..]))
  }

  /** The transmit loop looks at register `at` next. */
  function Begin(c: Comm, at: nat): Comm {
    c.(task := Sending(at, []))
  }

  /** The critical section of the transmit loop: the next register in succession joins the frame. */
  function Collect(c: Comm): Comm
    requires c.task.Sending? && c.task.at + |c.task.vals| < COUNT
  {
    var i := c.task.at + |c.task.vals|;
    c.(dirty := c.dirty - {i}, task := c.task.(vals := c.task.vals + [c.cache[i]]))
  }

  /** The slave carries out the frame. */
  function Deliver(c: Comm): (d: Comm)
    requires c.task.Sending? && c.task.at + |c.task.vals| <= COUNT
  {
    var t := c.task;
    c.(slave := c.slave[..t.at] + t.vals + c.slave[t.at + |t.vals|..])
  }

  /** The master is done with the frame. */
  function Release(c: Comm): Comm {
    c.(task := Free)
  }

  datatype Action =
    | SetReg(i: nat, v: U16)
    | Ask(at: nat, n: nat)
    | StoreOne
    | Look(at: nat)
    | CollectOne
    | Attempt(carried: bool)  // an attempt that fails: the slave may have carried it out all the same
    | Succeed
    | GiveUp                  // after the last attempt
    | Finish

  /** When an action can happen. */
  predicate Enabled(c: Comm, a: Action) {
    match a
    case SetReg(_, _) => true
    case Ask(at, n) => c.task.Free? && at + n <= COUNT
    case StoreOne => c.task.Storing? && c.task.got != [] && c.task.at < COUNT
    case Look(at) => c.task.Free? && at < COUNT
    case CollectOne =>
      && c.task.Sending? && |c.task.vals| < TRANSMIT_FRAME
      && c.task.at + |c.task.vals| < COUNT && c.task.at + |c.task.vals| in c.dirty
    case Attempt(_) => c.task.Sending? && c.task.at + |c.task.vals| <= COUNT
    case Succeed => c.task.Sending? && c.task.at + |c.task.vals| <= COUNT
    case GiveUp => c.task.Sending?
    case Finish => (c.task.Storing? && c.task.got == []) || (c.task.Sending? && c.task.vals == [])
  }

  function Act(c: Comm, a: Action): Comm
    requires Enabled(c, a)
  {
    match a
    case SetReg(i, v) => Set(c, i, v)
    case Ask(at, n) => Answer(c, at, n)
    case StoreOne => Store(c)
    case Look(at) => Begin(c, at)
    case CollectOne => Collect(c)
    case Attempt(carried) => if carried then Deliver(c) else c
    case Succeed => Release(Deliver(c))
    case GiveUp => Release(c)
    case Finish => Release(c)
  }

  lemma DeliveredAt(c: Comm, i: nat)
    requires c.task.Sending? && c.task.at + |c.task.vals| <= COUNT && i < COUNT
    ensures Deliver(c).slave[i] == if InFrame(c, i) then c.task.vals[i - c.task.at] else c.slave[i]
  {
  }

  /** Register `i` of the frame was not set again and the slave lacks its value. */
  predicate Missing(c: Comm, i: nat) {
    i in c.last && i < COUNT && InFrame(c, i) && i !in c.dirty && c.slave[i] != c.last[i]
  }

  /** What is lost if the frame is given up now. */
  function Dropped(c: Comm): set<nat> {
    set i: nat | i in c.last && Missing(c, i)
  }

  lemma ActionHolds(c: Comm, a: Action, i: nat)
    requires Fair(c) && Enabled(c, a) && i in c.last && Holds(c, i)
    ensures i in Act(c, a).last && (Holds(Act(c, a), i) <==> !(a.GiveUp? && Missing(c, i)))
  {
    if c.task.Sending? && c.task.at + |c.task.vals| <= COUNT {
      DeliveredAt(c, i);
    }
    match a {
      case SetReg(_, _) =>
      case Ask(_, _) =>
      case StoreOne =>
      case Look(_) =>
      case CollectOne => CollectHolds(c, i);
      case Attempt(_) =>
      case Succeed =>
      case GiveUp =>
      case Finish =>
    }
  }

  lemma CollectHolds(c: Comm, i: nat)
    requires Fair(c) && Enabled(c, CollectOne) && i in c.last && Holds(c, i)
    ensures Holds(Collect(c), i)
  {
  }

  lemma ActionIsFair(c: Comm, a: Action)
    requires Fair(c) && Enabled(c, a)
    ensures Fair(Act(c, a))
    ensures forall i :: i in c.last ==> i in Act(c, a).last
    ensures forall i :: i in Act(c, a).last && i !in c.last ==> Holds(Act(c, a), i)
  {
  }

  /** An action loses a register exactly if it gives up a frame with the register, which nobody set again and whose
      value the slave lacks. */
  lemma ActionKeeps(c: Comm, a: Action)
    requires Fair(c) && Enabled(c, a)
    ensures Fair(Act(c, a))
    ensures forall i :: i !in Lost(c) ==> (i in Lost(Act(c, a)) <==> a.GiveUp? && i in Dropped(c))
  {
    hide Enabled, Act, Holds, Missing;
    ActionIsFair(c, a);
    forall i: nat | i !in Lost(c)
      ensures i in Lost(Act(c, a)) <==> a.GiveUp? && i in c.last && Missing(c, i)
    {
      if i in c.last {
        ActionHolds(c, a, i);
      }
    }
  }

  /** Runs of the two tasks in any order. */
  predicate Possible(c: Comm, run: seq<Action>)
    decreases run
  {
    run == [] || (Enabled(c, run[0]) && Possible(Act(c, run[0]), run[1..]))
  }

  function After(c: Comm, run: seq<Action>): Comm
    requires Possible(c, run)
    decreases run
  {
    if run == [] then c else After(Act(c, run[0]), run[1..])
  }

  /** The registers are coherent at every point of the run. */
  predicate CoherentThroughout(c: Comm, run: seq<Action>)
    requires Possible(c, run)
    decreases run
  {
    Inv(c) && (run == [] || CoherentThroughout(Act(c, run[0]), run[1..]))
  }

  /** What the frames given up in a run lose. */
  function AllDropped(c: Comm, run: seq<Action>): set<nat>
    requires Possible(c, run)
    decreases run
  {
    if run == [] then {}
    else (if run[0].GiveUp? then Dropped(c) else {}) + AllDropped(Act(c, run[0]), run[1..])
  }

  /** At every point of a run each locally set register is dirty, in the frame being sent, or equal in cache and
      slave, with the value last set, exactly if no frame that is given up drops one. */
  lemma {:induction false} AlwaysCoherent(c: Comm, run: seq<Action>)
    requires Inv(c) && Possible(c, run)
    ensures CoherentThroughout(c, run) <==> AllDropped(c, run) == {}
    decreases run
  {
    hide Fair, Lost, Dropped, Enabled, Act;
    if run != [] {
      ActionKeeps(c, run[0]);
      var d := Act(c, run[0]);
      if Inv(d) {
        AlwaysCoherent(d, run[1..]);
      }
    }
  }

  /** From any state on, a run loses nothing but what it drops. */
  lemma {:induction false} OnlyDropsLose(c: Comm, run: seq<Action>)
    requires Fair(c) && Possible(c, run)
    ensures Fair(After(c, run)) && Lost(After(c, run)) <= Lost(c) + AllDropped(c, run)
    decreases run
  {
    hide Fair, Lost, Dropped, Enabled, Act;
    if run != [] {
      ActionKeeps(c, run[0]);
      assert Lost(Act(c, run[0])) <= Lost(c) + if run[0].GiveUp? then Dropped(c) else {};
      OnlyDropsLose(Act(c, run[0]), run[1..]);
    }
  }

  /** Receiving never changes what a locally set register shows. */
  lemma ReceiveSparesSet(c: Comm)
    requires Inv(c) && Enabled(c, StoreOne)
    ensures forall i :: i in c.last ==> Act(c, StoreOne).cache[i] == c.cache[i]
  {
    var at := c.task.at;
    assert at !in Lost(c);
  }

  // ---- where the two tasks must not meet ----------------------------------------------------

  /** The storing loop tests a register and stores into it in two steps. If the setter comes between
      them, its value survives exactly when the slave already held it. */
  lemma StoreWindow(c: Comm, v: U16)
    requires Inv(c) && Enabled(c, StoreOne) && c.task.at !in c.dirty
    ensures var at := c.task.at;
      var renewed := Set(c, at, v);
      var stored := renewed.(cache := renewed.cache[at := c.task.got[0]]);
      at in stored.dirty && (stored.cache[at] == v <==> c.slave[at] == v)
  {
  }

  /** `InterCommDataSet` locks a register and stores into it in two steps. If the transmit loop
      collects the register between them, the new value is neither dirty nor in the frame. It
      reaches the slave exactly when it is what the cache held before. */
  lemma SetWindow(c: Comm, v: U16)
    requires Inv(c) && c.task.Sending? && |c.task.vals| < TRANSMIT_FRAME
    requires c.task.at + |c.task.vals| < COUNT
    ensures var i := c.task.at + |c.task.vals|;
      var locked := c.(dirty := c.dirty + {i});
      var collected := Collect(locked);
      var stored := collected.(cache := collected.cache[i := v]);
      var sent := Act(stored, Succeed);
      i !in sent.dirty && sent.cache[i] == v && (sent.slave[i] == v <==> c.cache[i] == v)
  {
  }

  const START := Comm(seq(COUNT, i => 0), {}, seq(COUNT, i => 7), Free, map[])

  /** So it is when 5 is set while a 7 read from the slave is being stored: the 7 stays. */
  lemma StoreWindowLoses()
    ensures Inv(START) && Possible(START, [Ask(0, 1)])
    ensures var c := After(START, [Ask(0, 1)]);
      && Enabled(c, StoreOne) && 0 !in c.dirty
      && var renewed := Set(c, 0, 5);
      renewed.cache[0 := c.task.got[0]][0] == 7
  {
    assert [Ask(0, 1)][1..] == [];
  }

  /** So it is when 5 is set over 0 while the transmit loop collects the register: the 0 is sent. */
  lemma SetWindowLoses()
    ensures Inv(START) && Possible(START, [Look(0)])
    ensures var c := After(START, [Look(0)]);
      && c.task == Sending(0, [])
      && var collected := Collect(c.(dirty := {0}));
      var sent := Act(collected.(cache := collected.cache[0 := 5]), Succeed);
      sent.dirty == {} && sent.cache[0] == 5 && sent.slave[0] == 0
  {
    assert [Look(0)][1..] == [];
  }

  // ---- a frame given up ---------------------------------------------------------------------

  /** What happens while a frame is attempted. */
  predicate Attempts(run: seq<Action>) {
    forall k :: 0 <= k < |run| ==> run[k].SetReg? || run[k].Attempt?
  }

  predicate SetsAgain(run: seq<Action>, i: nat) {
    exists k :: 0 <= k < |run| && run[k].SetReg? && run[k].i == i
  }

  predicate Carried(run: seq<Action>) {
    Attempt(true) in run
  }

  /** The fate of a register whose frame is given up: after the next read of the slave the cache shows what was last
      asked for exactly if the register was set again, an attempt was carried out though not acknowledged, or the
      slave held the value before. */
  lemma GivenUp(c: Comm, run: seq<Action>, i: nat)
    requires Fair(c) && InFrame(c, i) && i in c.last && Holds(c, i) && Possible(c, run) && Attempts(run)
    ensures var d := Release(After(c, run));
      && i in d.last && i < COUNT && Enabled(d, Ask(i, 1)) && Enabled(Act(d, Ask(i, 1)), StoreOne)
      && var seen := Act(Act(d, Ask(i, 1)), StoreOne);
      seen.cache[i] == seen.last[i] <==>
        i in c.dirty || SetsAgain(run, i) || Carried(run) || c.slave[i] == c.last[i]
  {
    AttemptsEnd(c, run, i);
  }

  /** The value of a register of the frame stays as it is in the slave, unless an attempt is carried out. */
  lemma {:induction false} AttemptsEnd(c: Comm, run: seq<Action>, i: nat)
    requires Fair(c) && InFrame(c, i) && i in c.last && Holds(c, i) && Possible(c, run) && Attempts(run)
    ensures var d := After(c, run);
      && Fair(d) && d.task == c.task && i in d.last && Holds(d, i)
      && (i in d.dirty <==> i in c.dirty || SetsAgain(run, i))
      && (i !in d.dirty ==> d.last[i] == c.last[i] == c.task.vals[i - c.task.at])
      && (i !in d.dirty ==> d.slave[i] == if Carried(run) then c.last[i] else c.slave[i])
    decreases run
  {
    if run != [] {
      var a, rest := run[0], run[1..];
      assert run == [a] + rest;
      ActionKeeps(c, a);
      ActionHolds(c, a, i);
      DeliveredAt(c, i);
      AttemptsEnd(Act(c, a), rest, i);
      SetsAgainUnfolds(run, i);
    }
  }

  lemma SetsAgainUnfolds(run: seq<Action>, i: nat)
    requires run != []
    ensures SetsAgain(run, i) <==> (run[0].SetReg? && run[0].i == i) || SetsAgain(run[1..], i)
  {
    if k :| 0 <= k < |run| && run[k].SetReg? && run[k].i == i && k > 0 {
      assert run[1..][k - 1] == run[k];
    }
    if k :| 0 <= k < |run| - 1 && run[1..][k].SetReg? && run[1..][k].i == i {
      assert run[k + 1] == run[1..][k];
    }
  }

  /** So a 5 set over a 7 is lost after five writes nobody hears. */
  lemma FiveUnheard()
    ensures var begun := [SetReg(0, 5), Look(0), CollectOne];
      Possible(START, begun) && Inv(After(START, begun))
    ensures var c := After(START, [SetReg(0, 5), Look(0), CollectOne]);
      var run := [Attempt(false), Attempt(false), Attempt(false), Attempt(false), Attempt(false)];
      && Possible(c, run) && Dropped(After(c, run)) == {0}
      && var seen := Act(Act(Release(After(c, run)), Ask(0, 1)), StoreOne);
      seen.cache[0] == 7 && seen.last[0] == 5
  {
  }
}
