/** comm/inter_comm.cpp as it is written: a value array, a lock-bit mask and the communication
    task's loops, with the setter task running wherever it may preempt them. */
module InterComm {
  import opened Common
  import opened CommModel
  import opened CommTiles

  const MASK_BYTES := 16

  function MaskBit(k: nat): bv8
    requires k < 8
  {
    1 << k
  }

  predicate HasBit(m: bv8, k: nat)
    requires k < 8
  {
    m & MaskBit(k) != 0
  }

  function WithBit(m: bv8, k: nat): bv8
    requires k < 8
  {
    m | MaskBit(k)
  }

  function WithoutBit(m: bv8, k: nat): bv8
    requires k < 8
  {
    m & !MaskBit(k)
  }

  lemma MaskBitIs(k: nat)
    requires k < 8
    ensures MaskBit(k) == if k == 0 then 1 else if k == 1 then 2 else if k == 2 then 4 else if k == 3 then 8
      else if k == 4 then 0x10 else if k == 5 then 0x20 else if k == 6 then 0x40 else 0x80
  {
  }

  /** Setting or clearing one bit of a byte changes that bit and no other. */
  lemma BitsIndependent(m: bv8, j: nat, k: nat)
    requires j < 8 && k < 8
    ensures HasBit(WithBit(m, k), j) <==> j == k || HasBit(m, j)
    ensures HasBit(WithoutBit(m, k), j) <==> j != k && HasBit(m, j)
  {
    MaskBitIs(j);
    MaskBitIs(k);
    hide MaskBit;
    match k { case 0 => case 1 => case 2 => case 3 => case 4 => case 5 => case 6 => case _ => }
  }

  /** The registers whose lock bit is set. */
  function Locked(mask: seq<bv8>): set<nat>
    requires |mask| == MASK_BYTES
  {
    set i: nat | i < 8 * MASK_BYTES && HasBit(mask[i / 8], i % 8)
  }

  lemma LockedAfter(mask: seq<bv8>, k: nat)
    requires |mask| == MASK_BYTES && k < 8 * MASK_BYTES
    ensures Locked(mask[k / 8 := WithBit(mask[k / 8], k % 8)]) == Locked(mask) + {k}
    ensures Locked(mask[k / 8 := WithoutBit(mask[k / 8], k % 8)]) == Locked(mask) - {k}
  {
    hide HasBit, WithBit, WithoutBit;
    var on, off := mask[k / 8 := WithBit(mask[k / 8], k % 8)], mask[k / 8 := WithoutBit(mask[k / 8], k % 8)];
    forall i: nat | i < 8 * MASK_BYTES
      ensures i in Locked(on) <==> i in Locked(mask) || i == k
      ensures i in Locked(off) <==> i in Locked(mask) && i != k
    {
      BitsIndependent(mask[k / 8], i % 8, k % 8);
      assert i == 8 * (i / 8) + i % 8 && k == 8 * (k / 8) + k % 8;
    }
  }

  /** A frame as it is put on the line. */
  datatype Frame = Frame(at: nat, vals: seq<U16>)

  /** The frames carry the registers of `dirty` below `upTo`, each with its value in `cache`, in ascending frames of
      registers in succession that do not overlap, each as long as it can be up to eight. */
  ghost predicate Carries(frames: seq<Frame>, dirty: set<nat>, cache: seq<U16>, upTo: nat) {
    && (forall k :: 0 <= k < |frames| ==> OneFrame(frames[k], dirty, cache, upTo))
    && (forall j, k :: 0 <= j < k < |frames| ==> frames[j].at + |frames[j].vals| <= frames[k].at)
    && (forall i :: i in dirty && i < upTo ==> exists k :: 0 <= k < |frames| && Within(frames[k], i))
  }

  ghost predicate OneFrame(f: Frame, dirty: set<nat>, cache: seq<U16>, upTo: nat) {
    && 1 <= |f.vals| <= 8 && f.at + |f.vals| <= upTo
    && TakenFrom(f.at, f.vals, dirty, cache) && Maximal(f.at, f.vals, dirty)
  }

  /** A frame of fewer than eight registers ends before a clean register or with the last. */
  predicate Maximal(at: nat, vals: seq<U16>, dirty: set<nat>) {
    |vals| == 8 || at + |vals| == 125 || at + |vals| !in dirty
  }

  ghost predicate TakenFrom(at: nat, vals: seq<U16>, dirty: set<nat>, cache: seq<U16>) {
    forall i: nat :: Within(Frame(at, vals), i) ==> i in dirty && i < |cache| && vals[i - at] == cache[i]
  }

  lemma TakenOneMore(at: nat, vals: seq<U16>, dirty: set<nat>, cache: seq<U16>)
    requires TakenFrom(at, vals, dirty, cache) && at + |vals| in dirty && at + |vals| < |cache|
    ensures TakenFrom(at, vals + [cache[at + |vals|]], dirty, cache)
  {
  }

  predicate Within(f: Frame, i: nat) {
    f.at <= i < f.at + |f.vals|
  }

  /** The registers of a slave once those of `dirty` below `upTo` were written. */
  function Written(slave: Regs, dirty: set<nat>, cache: Regs, upTo: nat): Regs {
    seq(COUNT, i requires 0 <= i < COUNT => if i in dirty && i < upTo then cache[i] else slave[i])
  }

  lemma WrittenNone(slave: Regs, dirty: set<nat>, cache: Regs)
    ensures Written(slave, dirty, cache, 0) == slave
  {
  }

  lemma WrittenSkipped(slave: Regs, dirty: set<nat>, cache: Regs, at: nat)
    requires at !in dirty
    ensures Written(slave, dirty, cache, at + 1) == Written(slave, dirty, cache, at)
  {
  }

  lemma WrittenFrame(slave: Regs, dirty: set<nat>, cache: Regs, f: Frame)
    requires f.at + |f.vals| <= COUNT && TakenFrom(f.at, f.vals, dirty, cache)
    ensures WithFrame(Written(slave, dirty, cache, f.at), f) == Written(slave, dirty, cache, f.at + |f.vals|)
  {
    forall i: nat | i < COUNT && Within(f, i)
      ensures i in dirty && f.vals[i - f.at] == cache[i]
    {
      assert Within(Frame(f.at, f.vals), i);
    }
  }

  /** Between `c` and `d` the registers from `at` on were taken into `vals`, with nothing else going on. */
  ghost predicate Collected(c: Comm, d: Comm, at: nat, vals: seq<U16>) {
    && d.cache == c.cache && d.last == c.last && TakenFrom(at, vals, c.dirty, c.cache)
    && d.dirty == (set i | i in c.dirty && !(at <= i < at + |vals|))
  }

  lemma NothingCollected(c: Comm, d: Comm, at: nat)
    requires d.cache == c.cache && d.last == c.last && d.dirty == c.dirty
    ensures Collected(c, d, at, [])
  {
    NothingTaken(at, c.dirty, c.cache);
  }

  lemma OneCollected(c: Comm, d: Comm, e: Comm, at: nat, vals: seq<U16>, v: U16)
    requires Collected(c, d, at, vals) && at + |vals| < COUNT
    requires var i := at + |vals|;
      && e.cache == d.cache && e.last == d.last
      && e.dirty == (if i in d.dirty then d.dirty - {i} else d.dirty) && (i in d.dirty ==> v == d.cache[i])
    ensures at + |vals| in d.dirty <==> at + |vals| in c.dirty
    ensures at + |vals| in d.dirty ==> Collected(c, e, at, vals + [v])
    ensures at + |vals| !in d.dirty ==> Collected(c, e, at, vals)
  {
    hide TakenFrom;
    if at + |vals| in d.dirty {
      TakenOneMore(at, vals, c.dirty, c.cache);
    }
  }

  /** Where a pass of the transmit loop stands that began in state `c` at write `first`. */
  ghost predicate Passed(w: World, c: Comm, d: Comm, first: nat, now: nat, errors: nat, at: nat)
    requires first <= now
  {
    && Fair(d) && d.task == Free && errors == Failures(w, first, now)
    && (Spared(c, d) || (errors >= 5 && SomeUnheard(w, first, now)))
    && (Quiet(w) ==> d.cache == c.cache && d.dirty == (set i | i in c.dirty && at <= i))
    && (Quiet(w) && errors == 0 ==> d.slave == Written(c.slave, c.dirty, c.cache, at))
  }

  lemma PassBegins(w: World, c: Comm, first: nat)
    requires Fair(c) && c.task == Free
    ensures Passed(w, c, c, first, first, 0, 0)
  {
    hide Fair, Lost;
    WrittenNone(c.slave, c.dirty, c.cache);
  }

  lemma PassedMeans(w: World, c: Comm, d: Comm, first: nat, now: nat, errors: nat, at: nat)
    requires first <= now && Passed(w, c, d, first, now, errors, at)
    ensures Quiet(w) ==> d.cache == c.cache && d.dirty == (set i | i in c.dirty && at <= i)
  {
  }

  /** What is taken from the registers still dirty is taken from those dirty at first. */
  lemma FrameCarried(c: Comm, b: Comm, d: Comm, carried: seq<Frame>, f: Frame)
    requires b.cache == c.cache && b.dirty == (set i | i in c.dirty && f.at <= i)
    requires Carries(carried, c.dirty, c.cache, f.at)
    requires 1 <= |f.vals| <= 8 && Collected(b, d, f.at, f.vals) && Maximal(f.at, f.vals, b.dirty)
    ensures Carries(carried + [f], c.dirty, c.cache, f.at + |f.vals|)
  {
    hide Carries, TakenFrom;
    TakenEarlier(c, b, f);
    CarriesOneMore(carried, c.dirty, c.cache, f.at, f);
  }

  lemma SkipCarried(c: Comm, b: Comm, d: Comm, carried: seq<Frame>, at: nat)
    requires b.dirty == (set i | i in c.dirty && at <= i) && Carries(carried, c.dirty, c.cache, at)
    requires Collected(b, d, at, []) && Maximal(at, [], b.dirty) && at < COUNT
    ensures Carries(carried, c.dirty, c.cache, at + 1)
  {
    CarriesSkipped(carried, c.dirty, c.cache, at);
  }

  /** A frame taken in `b` and collected in `d` was sent. */
  lemma PassFrame(w: World, c: Comm, b: Comm, d: Comm, e: Comm, first: nat, k: nat, now: nat, before: nat, errors: nat,
                  f: Frame)
    requires first <= k < now && Passed(w, c, b, first, k, before, f.at)
    requires Spared(b, d) && d.slave == b.slave && f.at + |f.vals| <= COUNT
    requires Quiet(w) ==> Collected(b, d, f.at, f.vals)
    requires Fair(e) && e.task == Free && errors <= 5 && errors == Failures(w, k, now)
    requires now == k + (if errors < 5 then errors + 1 else errors) && (errors < 5 ==> GoodAt(w, k + errors))
    requires e.slave == if SomeHeard(w, k, now) then WithFrame(d.slave, f) else d.slave
    requires forall i :: i !in Lost(d) ==> (i in Lost(e) ==> AllUnheard(w, k))
    requires Quiet(w) ==> e.cache == d.cache && e.dirty == d.dirty
    ensures Passed(w, c, e, first, now, before + errors, f.at + |f.vals|)
  {
    hide Fair, Lost, WithFrame, Written, AllUnheard, TakenFrom;
    FailuresAdd(w, first, k, now);
    SparedUnlessUnheard(d, e, w, k, errors);
    if Quiet(w) && before + errors == 0 {
      assert !UnheardAt(w, k);
      TakenEarlier(c, b, f);
      WrittenFrame(c.slave, c.dirty, c.cache, f);
    }
  }

  lemma TakenEarlier(c: Comm, b: Comm, f: Frame)
    requires b.cache == c.cache && b.dirty == (set i | i in c.dirty && f.at <= i)
    requires TakenFrom(f.at, f.vals, b.dirty, b.cache)
    ensures TakenFrom(f.at, f.vals, c.dirty, c.cache)
  {
  }

  /** Nothing was collected in `d`, because the register is clean. */
  lemma PassSkip(w: World, c: Comm, b: Comm, d: Comm, first: nat, now: nat, errors: nat, at: nat)
    requires first <= now && Passed(w, c, b, first, now, errors, at)
    requires Spared(b, d) && d.slave == b.slave && d.task == Sending(at, [])
    requires Quiet(w) ==> Collected(b, d, at, []) && Maximal(at, [], b.dirty) && at < COUNT
    ensures Passed(w, c, d.(task := Free), first, now, errors, at + 1)
  {
    FinishSpares(d);
    hide Fair, Lost, Written;
    if Quiet(w) {
      WrittenSkipped(c.slave, c.dirty, c.cache, at);
    }
  }

  lemma PassEnds(w: World, c: Comm, d: Comm, first: nat, now: nat, errors: nat)
    requires first <= now && Passed(w, c, d, first, now, errors, COUNT) && Fair(c)
    ensures errors == Failures(w, first, now)
    ensures Spared(c, d) || (errors >= 5 && SomeUnheard(w, first, now))
    ensures Quiet(w) ==> d.cache == c.cache && d.dirty == {}
    ensures Quiet(w) && errors == 0 ==> d.slave == Written(c.slave, c.dirty, c.cache, COUNT)
  {
    DirtyBelow(c);
  }

  /** Each dirty register is in exactly one of the frames, and nothing else is in any. */
  lemma CarriedOnce(frames: seq<Frame>, dirty: set<nat>, cache: seq<U16>, upTo: nat, i: nat)
    requires Carries(frames, dirty, cache, upTo) && i < upTo
    ensures (exists k :: 0 <= k < |frames| && Within(frames[k], i)) <==> i in dirty
    ensures forall j, k ::
      0 <= j < |frames| && 0 <= k < |frames| && Within(frames[j], i) && Within(frames[k], i) ==> j == k
  {
  }

  lemma CarriesOneMore(frames: seq<Frame>, dirty: set<nat>, cache: seq<U16>, at: nat, f: Frame)
    requires Carries(frames, dirty, cache, at) && f.at == at && OneFrame(f, dirty, cache, at + |f.vals|)
    ensures Carries(frames + [f], dirty, cache, at + |f.vals|)
  {
    var more := frames + [f];
    forall i | i in dirty && i < at + |f.vals|
      ensures exists k :: 0 <= k < |more| && Within(more[k], i)
    {
      if i < at {
        var k :| 0 <= k < |frames| && Within(frames[k], i);
        assert Within(more[k], i);
      } else {
        assert Within(more[|frames|], i);
      }
    }
  }

  lemma CarriesSkipped(frames: seq<Frame>, dirty: set<nat>, cache: seq<U16>, at: nat)
    requires Carries(frames, dirty, cache, at) && at !in dirty
    ensures Carries(frames, dirty, cache, at + 1)
  {
  }

  /** What one call of the write function brings: success, or a failure after which the slave may
      or may not have carried out the frame. */
  datatype Result = Good | Unheard | Unanswered

  /** What happens around the communication task: what the setter does at the k-th point where it
      may preempt, and how the k-th write goes. */
  datatype World = World(sets: nat -> seq<(nat, U16)>, writes: nat -> Result)

  predicate GoodAt(w: World, j: nat) {
    w.writes(j) == Good
  }

  predicate NoneGood(w: World, from: nat, upTo: nat) {
    forall j: nat :: from <= j < upTo ==> !GoodAt(w, j)
  }

  predicate UnheardAt(w: World, j: nat) {
    w.writes(j) == Unheard
  }

  ghost predicate SomeHeard(w: World, from: nat, upTo: nat) {
    exists j: nat :: from <= j < upTo && !UnheardAt(w, j)
  }

  lemma HeardOneMore(w: World, from: nat, upTo: nat)
    requires from <= upTo
    ensures SomeHeard(w, from, upTo + 1) <==> SomeHeard(w, from, upTo) || !UnheardAt(w, upTo)
  {
  }

  lemma HeardOrNot(w: World, from: nat, upTo: nat, errors: nat)
    requires errors <= 5 && upTo == from + (if errors < 5 then errors + 1 else errors)
    requires errors < 5 ==> GoodAt(w, from + errors)
    ensures AllUnheard(w, from) <==> !SomeHeard(w, from, upTo)
  {
    if errors < 5 {
      assert !UnheardAt(w, from + errors);
    }
  }

  /** Where the attempts at a frame stand: `now` is the next write. */
  ghost predicate Attempted(w: World, first: nat, now: nat, errors: nat, done: bool, heard: bool) {
    && now == first + errors + (if done then 1 else 0) && errors <= 5 && errors == Failures(w, first, now)
    && NoneGood(w, first, first + errors) && (done ==> errors < 5 && GoodAt(w, first + errors))
    && (heard <==> SomeHeard(w, first, now))
  }

  lemma NoAttempt(w: World, first: nat)
    ensures Attempted(w, first, first, 0, false, false)
  {
  }

  lemma OneAttempt(w: World, first: nat, now: nat, errors: nat, heard: bool, result: Result)
    requires Attempted(w, first, now, errors, false, heard) && errors < 5 && result == w.writes(now)
    ensures Attempted(w, first, now + 1, if result == Good then errors else errors + 1, result == Good,
                      heard || result != Unheard)
  {
    HeardOneMore(w, first, now);
    assert GoodAt(w, now) <==> result == Good;
  }

  lemma AttemptsOver(w: World, first: nat, now: nat, errors: nat, done: bool, heard: bool)
    requires Attempted(w, first, now, errors, done, heard) && (done || errors == 5)
    ensures errors <= 5 && NoneGood(w, first, first + errors) && (errors < 5 ==> GoodAt(w, first + errors))
    ensures now == first + (if errors < 5 then errors + 1 else errors) && errors == Failures(w, first, now)
    ensures (heard <==> SomeHeard(w, first, now)) && (heard <==> !AllUnheard(w, first))
  {
    HeardOrNot(w, first, now, errors);
  }

  /** All five attempts at a frame whose first is write `k` go unheard. */
  predicate AllUnheard(w: World, k: nat) {
    forall j: nat :: k <= j < k + 5 ==> UnheardAt(w, j)
  }

  /** How many writes failed. */
  function Failures(w: World, from: nat, upTo: nat): (n: nat)
    requires from <= upTo
    ensures n <= upTo - from && (n == 0 <==> forall j: nat :: from <= j < upTo ==> GoodAt(w, j))
    decreases upTo
  {
    if from == upTo then 0 else Failures(w, from, upTo - 1) + if GoodAt(w, upTo - 1) then 0 else 1
  }

  lemma {:induction false} FailuresAdd(w: World, from: nat, mid: nat, upTo: nat)
    requires from <= mid <= upTo
    ensures Failures(w, from, upTo) == Failures(w, from, mid) + Failures(w, mid, upTo)
    decreases upTo
  {
    if mid < upTo {
      FailuresAdd(w, from, mid, upTo - 1);
    }
  }

  ghost predicate SomeUnheard(w: World, from: nat, upTo: nat) {
    exists k: nat :: from <= k && k + 5 <= upTo && AllUnheard(w, k)
  }

  /** Between `c` and `d` nothing is lost. */
  predicate Spared(c: Comm, d: Comm) {
    Fair(d) && Lost(d) <= Lost(c)
  }

  /** Register `i` of frame `f` was last set before `c`, and the slave of `c` lacks the value `d` still waits for. */
  predicate Unsaved(f: Frame, c: Comm, d: Comm, i: nat) {
    Within(f, i) && i < COUNT && i in d.last && i !in d.dirty && c.slave[i] != d.last[i]
  }

  /** The setter keeps still. */
  ghost predicate Quiet(w: World) {
    forall k: nat :: w.sets(k) == []
  }

  class RegisterCache {
    const cache: array<U16>
    const mask: array<bv8>

    /** The slave's registers from the start address on. */
    var slave: Regs

    /** What the communication task is doing, and what the setter asked for last. */
    ghost var task: Task
    ghost var last: map<nat, U16>

    /** The frames put on the line. */
    ghost var sent: seq<Frame>

    /** The receive cycle. */
    var dataQuan: nat
    var frameQuan: nat
    var currFrame: nat
    var readInProcess: bool

    /** How many preemption points and writes there have been. */
    var points: nat
    var writes: nat

    ghost predicate Valid()
      reads this
    {
      cache.Length == COUNT && mask.Length == MASK_BYTES && cache as object != mask as object
    }

    ghost function State(): Comm
      requires Valid()
      reads this, cache, mask
    {
      Comm(cache[..], Locked(mask[..]), slave, task, last)
    }

    ghost function CycleState(): Cycle
      reads this
    {
      Cycle(dataQuan, frameQuan, currFrame, readInProcess)
    }

    constructor (slave: Regs)
      ensures Valid() && fresh(cache) && fresh(mask) && Inv(State()) && task == Free && last == map[] && sent == []
      ensures Locked(mask[..]) == {}
    {
      cache := new U16[COUNT](i => 0);
      mask := new bv8[MASK_BYTES](i => 0);
      this.slave, task, last, sent, points, writes := slave, Free, map[], [], 0, 0;
      dataQuan, frameQuan, currFrame, readInProcess := 0, 0, 0, false;
      new;
      NoneLocked(mask[..]);
    }

    /** `InterCommDataReadLock`. */
    method Lock(i: nat)
      requires Valid() && i < COUNT
      modifies mask
      ensures Locked(mask[..]) == Locked(old(mask[..])) + {i}
    {
      hide WithBit, Locked;
      LockedAfter(mask[..], i);
      mask[i / 8] := WithBit(mask[i / 8], i % 8);
      assert mask[..] == old(mask[..])[i / 8 := WithBit(old(mask[i / 8]), i % 8)];
    }

    /** `InterCommDataReadUnLock`. */
    method Unlock(i: nat)
      requires Valid() && i < COUNT
      modifies mask
      ensures Locked(mask[..]) == Locked(old(mask[..])) - {i}
    {
      hide WithoutBit, Locked;
      LockedAfter(mask[..], i);
      mask[i / 8] := WithoutBit(mask[i / 8], i % 8);
      assert mask[..] == old(mask[..])[i / 8 := WithoutBit(old(mask[i / 8]), i % 8)];
    }

    /** `InterCommDataReadLockStatusGet`. */
    method LockStatus(i: nat) returns (locked: bool)
      requires Valid() && i < COUNT
      ensures locked == (i in Locked(mask[..]))
    {
      hide HasBit;
      locked := HasBit(mask[i / 8], i % 8);
    }

    /** `InterCommDataSet`. */
    method DataSet(i: nat, v: U16)
      requires Valid()
      modifies this`last, cache, mask
      ensures State() == Set(old(State()), i, v)
    {
      hide Locked;
      if i < COUNT {
        Lock(i);
        cache[i] := v;
        last := last[i := v];
        assert cache[..] == old(cache[..])[i := v];
      }
    }

    /** `InterCommDataGet`: a register that was set and not lost shows what was last asked for, and unless that is
        still on its way the slave has it too. */
    method DataGet(i: nat) returns (v: U16)
      requires Valid()
      ensures if i < 125 then v == State().cache[i] else v == 0
      ensures i in last && i !in Lost(State()) ==> v == last[i]
      ensures i in last && i !in Lost(State()) && i !in State().dirty && !InFrame(State(), i) ==>
        i < COUNT && v == slave[i]
    {
      hide Locked;
      v := if i < COUNT then cache[i] else 0;
    }

    /** The setter task runs here. */
    method Preempt(w: World)
      requires Valid() && Fair(State())
      modifies this`last, this`points, cache, mask
      ensures State() == SetAll(old(State()), w.sets(old(points))) && points == old(points) + 1
      ensures Spared(old(State()), State()) && task == old(task) && slave == old(slave)
      ensures Quiet(w) ==> State() == old(State())
      ensures forall i :: i in old(State()).dirty ==> i in State().dirty
    {
      hide Locked, Fair, Lost;
      var sets := w.sets(points);
      points := points + 1;
      for k := 0 to |sets|
        invariant State() == SetAll(old(State()), sets[..k]) && points == old(points) + 1
        invariant Spared(old(State()), State()) && task == old(task) && slave == old(slave)
        invariant Quiet(w) ==> State() == old(State())
        invariant forall i :: i in old(State()).dirty ==> i in State().dirty
      {
        ActionSpares(State(), SetReg(sets[k].0, sets[k].1));
        SetAllAdds(old(State()), sets[..k], sets[k]);
        assert sets[..k + 1] == sets[..k] + [sets[k]];
        DataSet(sets[k].0, sets[k].1);
      }
      assert sets[..|sets|] == sets;
    }

    /** One turn of the search: a locked register is taken and unlocked at once. */
    method Take(w: World, at: nat, vals: seq<U16>) returns (taken: bool, v: U16)
      requires Valid() && Fair(State()) && task == Sending(at, vals)
      requires |vals| < TRANSMIT_FRAME && at + |vals| < COUNT
      modifies this`last, this`points, this`task, cache, mask
      ensures Spared(old(State()), State()) && slave == old(slave)
      ensures task == Sending(at, if taken then vals + [v] else vals)
      ensures Quiet(w) ==> var c, i := old(State()), at + |vals|;
        && State().cache == c.cache && last == c.last && taken == (i in c.dirty)
        && State().dirty == (if taken then c.dirty - {i} else c.dirty) && (taken ==> v == c.cache[i])
    {
      hide Locked, Fair, Lost;
      taken, v := false, 0;
      Preempt(w);
      var i := at + |vals|;
      var locked := LockStatus(i);
      if locked {
        Preempt(w);
        ActionSpares(State(), CollectOne);
        taken, v := true, cache[i];
        Unlock(i);
        task := Sending(at, vals + [v]);
      }
    }

    /** The search for locked registers in succession from `at`. */
    method CollectFrame(w: World, at: nat) returns (vals: seq<U16>)
      requires Valid() && Fair(State()) && task == Free && at < COUNT
      modifies this`last, this`points, this`task, cache, mask
      ensures Spared(old(State()), State())
      ensures task == Sending(at, vals) && |vals| <= 8 && at + |vals| <= COUNT && slave == old(slave)
      ensures Quiet(w) ==> Collected(old(State()), State(), at, vals) && Maximal(at, vals, old(State()).dirty)
    {
      hide Locked, Fair, Lost, Collected;
      ghost var c := State();
      vals := [];
      ActionSpares(State(), Look(at));
      task := Sending(at, []);
      NothingCollected(c, State(), at);
      while at + |vals| < COUNT
        invariant Spared(c, State()) && slave == c.slave
        invariant task == Sending(at, vals) && |vals| < TRANSMIT_FRAME && at + |vals| <= COUNT
        invariant Quiet(w) ==> Collected(c, State(), at, vals)
        decreases COUNT - |vals|
      {
        ghost var d := State();
        var taken, v := Take(w, at, vals);
        if Quiet(w) {
          OneCollected(c, d, State(), at, vals, v);
        }
        if !taken {
          break;
        }
        vals := vals + [v];
        if |vals| >= TRANSMIT_FRAME {
          break;
        }
      }
    }

    /** One write of the frame; the setter may run before it. */
    method TryFrame(w: World, at: nat, vals: seq<U16>) returns (result: Result)
      requires Valid() && Fair(State()) && task == Sending(at, vals) && at + |vals| <= COUNT
      modifies this`last, this`points, this`writes, this`slave, cache, mask
      ensures Spared(old(State()), State()) && task == old(task)
      ensures result == w.writes(old(writes)) && writes == old(writes) + 1
      ensures slave == if result == Unheard then old(slave) else WithFrame(old(slave), Frame(at, vals))
      ensures Quiet(w) ==>
        State().cache == old(State()).cache && State().dirty == old(State()).dirty && last == old(last)
    {
      hide Locked, Fair, Lost;
      Preempt(w);
      result := w.writes(writes);
      writes := writes + 1;
      if result != Unheard {
        AttemptSpares(State());
        slave := WithFrame(slave, Frame(at, vals));
      }
    }

    /** Up to five attempts at the frame. It is acknowledged exactly if one of the writes is good; a register is lost
        exactly if all five go unheard, nobody has set it again and the slave lacked its value. */
    method SendFrame(w: World, at: nat, vals: seq<U16>) returns (errors: nat)
      requires Valid() && Fair(State()) && task == Sending(at, vals) && vals != [] && at + |vals| <= COUNT
      modifies this
      modifies cache, mask
      ensures CycleState() == old(CycleState())
      ensures Fair(State()) && task == Free && sent == old(sent) + [Frame(at, vals)]
      ensures errors <= 5 && NoneGood(w, old(writes), old(writes) + errors)
      ensures errors < 5 ==> GoodAt(w, old(writes) + errors)
      ensures writes == old(writes) + (if errors < 5 then errors + 1 else errors)
      ensures errors == Failures(w, old(writes), writes)
      ensures slave == if SomeHeard(w, old(writes), writes) then WithFrame(old(slave), Frame(at, vals)) else old(slave)
      ensures forall i :: i !in Lost(old(State())) ==>
        (i in Lost(State()) <==> AllUnheard(w, old(writes)) && Unsaved(Frame(at, vals), old(State()), State(), i))
      ensures Quiet(w) ==>
        State().cache == old(State()).cache && State().dirty == old(State()).dirty && last == old(last)
    {
      hide Locked, Fair, Lost, WithFrame, Unsaved, SomeHeard, AllUnheard, Attempted, NoneGood;
      errors := 0;
      var attempts := ATTEMPTS;
      var done := false;
      ghost var c, first, heard := State(), writes, false;
      NoAttempt(w, first);
      while attempts > 0 && !done
        invariant CycleState() == old(CycleState())
        invariant Spared(c, State()) && task == Sending(at, vals) && sent == old(sent)
        invariant attempts == ATTEMPTS - errors && errors <= 5 && Attempted(w, first, writes, errors, done, heard)
        invariant slave == if heard then WithFrame(c.slave, Frame(at, vals)) else c.slave
        invariant Quiet(w) ==>
          State().cache == old(State()).cache && State().dirty == old(State()).dirty && last == old(last)
        decreases attempts, !done
      {
        var result := TryFrame(w, at, vals);
        OneAttempt(w, first, writes - 1, errors, heard, result);
        WithFrameTwice(c.slave, Frame(at, vals));
        heard := heard || result != Unheard;
        if result == Good {
          done := true;
        } else {
          attempts := attempts - 1;
          errors := errors + 1;
        }
      }
      AttemptsOver(w, first, writes, errors, done, heard);
      GiveUpLoses(c, State(), heard);
      task := Free;
      sent := sent + [Frame(at, vals)];
    }

    /** One turn of the transmit loop: a frame from register `at` on, or on to the next register. */
    method PassOn(w: World, at: nat, ghost c: Comm, ghost first: nat, ghost before: nat, ghost carried: seq<Frame>)
      returns (next: nat, errors: nat)
      requires Valid() && Fair(State()) && task == Free && at < COUNT
      requires first <= writes && Passed(w, c, State(), first, writes, before, at)
      requires Quiet(w) ==> Carries(carried, c.dirty, c.cache, at)
      modifies this
      modifies cache, mask
      ensures CycleState() == old(CycleState())
      ensures Fair(State()) && task == Free && at < next <= COUNT && old(sent) <= sent
      ensures first <= writes && Passed(w, c, State(), first, writes, before + errors, next)
      ensures Quiet(w) ==> Carries(carried + sent[|old(sent)|..], c.dirty, c.cache, next)
    {
      hide Locked, Fair, Lost, Carries, Passed, Maximal, Collected, NoneGood, SomeHeard, AllUnheard, Unsaved, WithFrame,
           Written, SomeUnheard;
      ghost var b, n := State(), |sent|;
      PassedMeans(w, c, b, first, writes, before, at);
      var vals := CollectFrame(w, at);
      ghost var d, k := State(), writes;
      if vals != [] {
        errors := SendFrame(w, at, vals);
        PassFrame(w, c, b, d, State(), first, k, writes, before, errors, Frame(at, vals));
        assert sent[n..] == [Frame(at, vals)];
        if Quiet(w) {
          FrameCarried(c, b, d, carried, Frame(at, vals));
        }
        next := at + |vals|;
      } else {
        errors := 0;
        if Quiet(w) {
          SkipCarried(c, b, d, carried, at);
        }
        PassSkip(w, c, b, d, first, writes, before, at);
        FinishSpares(d);
        task := Free;
        assert carried + sent[n..] == carried;
        next := at + 1;
      }
    }

    /** `InterCommDataTransmitt`: with the setter active anywhere, no register is lost unless five writes in a row go
        unheard, and every failed write is counted; with the setter still, exactly the dirty registers are sent, once
        each, and none stays dirty. */
    method Transmit(w: World) returns (errors: nat)
      requires Valid() && Fair(State()) && task == Free
      modifies this
      modifies cache, mask
      ensures CycleState() == old(CycleState())
      ensures Fair(State()) && task == Free && old(sent) <= sent && old(writes) <= writes
      ensures errors == Failures(w, old(writes), writes)
      ensures Spared(old(State()), State()) || (errors >= 5 && SomeUnheard(w, old(writes), writes))
      ensures Quiet(w) && errors == 0 ==> slave == Written(old(slave), old(State()).dirty, old(State()).cache, COUNT)
      ensures Quiet(w) ==>
        && Carries(sent[|old(sent)|..], old(State()).dirty, old(State()).cache, COUNT)
        && State().dirty == {} && State().cache == old(State()).cache
    {
      hide Locked, Fair, Lost, Carries, Passed, Written, SomeUnheard;
      errors := 0;
      var at := 0;
      ghost var c, n, first := State(), |sent|, writes;
      NothingCarried(c.dirty, c.cache);
      PassBegins(w, c, first);
      assert sent[n..] == [];
      while at < COUNT
        invariant CycleState() == old(CycleState())
        invariant Fair(State()) && task == Free && at <= COUNT && old(sent) <= sent && n == |old(sent)|
        invariant first <= writes && Passed(w, c, State(), first, writes, errors, at)
        invariant Quiet(w) ==> Carries(sent[n..], c.dirty, c.cache, at)
        decreases COUNT - at
      {
        ghost var carried, m := sent[n..], |sent|;
        var e;
        at, e := PassOn(w, at, c, first, errors, carried);
        assert carried + sent[m..] == sent[n..];
        errors := errors + e;
      }
      PassEnds(w, c, State(), first, writes, errors);
    }

    /** The part of `inter_comm_config_update` that sets the window's size. Nothing ever sets the
        write-in-process flag it also tests. */
    method ConfigUpdate(quan: nat)
      requires 1 <= quan <= COUNT
      modifies this`dataQuan, this`frameQuan
      ensures CycleState() == Next(old(CycleState()), Configure(quan))
    {
      if !readInProcess {
        dataQuan := quan;
        frameQuan := dataQuan / RECEIVE_FRAME + (if dataQuan % RECEIVE_FRAME != 0 then 1 else 0);
      }
    }

    /** `inter_comm_data_receive`: one frame of the cycle, in range; locked registers are spared, and the registers stay
        coherent with the setter active anywhere. Without an answer nothing changes but what the setter did meanwhile,
        and one error is counted. */
    method Receive(w: World, answered: bool) returns (errors: nat, ghost piece: (nat, int))
      requires Valid() && Fair(State()) && task == Free && Tiled(CycleState())
      modifies this`last, this`points, this`task, this`currFrame, this`readInProcess, cache, mask
      ensures Spared(old(State()), State()) && task == Free && Tiled(CycleState())
      ensures piece == Piece(old(CycleState())) && CycleState() == Next(old(CycleState()), Read)
      ensures errors == (if answered then 0 else 1) && slave == old(slave)
      ensures !answered ==> State() == SetAll(old(State()), w.sets(old(points)))
      ensures Quiet(w) ==> State().dirty == old(State()).dirty
      ensures forall i :: 0 <= i < COUNT && !InPiece(piece, i) && Quiet(w) ==> cache[i] == old(cache[i])
      ensures Quiet(w) && answered ==> forall i: nat :: InPiece(piece, i) && i < COUNT ==>
        cache[i] == if i in old(State()).dirty then old(cache[i]) else slave[i]
    {
      hide Locked, Fair, Lost;
      TilingKept(CycleState(), Read);
      piece := Piece(CycleState());
      errors := 0;
      var at := currFrame * RECEIVE_FRAME;
      var n := if currFrame == frameQuan - 1 then dataQuan - at else RECEIVE_FRAME;
      Preempt(w);
      if answered {
        StoreAll(w, at, n);
      } else {
        errors := 1;
      }
      currFrame := currFrame + 1;
      if currFrame >= frameQuan {
        currFrame := 0;
        readInProcess := false;
      } else {
        readInProcess := true;
      }
    }

    /** One register of an answer: stored unless locked. */
    method StoreReg(at: nat, v: U16)
      requires Valid() && task.Storing? && task.got != [] && at == task.at < COUNT && v == task.got[0]
      modifies this`task, cache
      ensures State() == Store(old(State()))
    {
      hide Locked;
      ghost var before := State();
      var locked := LockStatus(at);
      if !locked {
        cache[at] := v;
      }
      task := Storing(at + 1, task.got[1..]);
      assert cache[..] == if locked then before.cache else before.cache[at := v];
      assert mask[..] == old(mask[..]);
    }

    /** The storing loop, on the registers the slave answered with. */
    method StoreAll(w: World, at: nat, n: nat)
      requires Valid() && Fair(State()) && task == Free && at + n <= COUNT
      modifies this`last, this`points, this`task, cache, mask
      ensures Spared(old(State()), State()) && task == Free && slave == old(slave)
      ensures Quiet(w) ==> State().dirty == old(State()).dirty && forall i :: 0 <= i < COUNT ==>
        cache[i] == if at <= i < at + n && i !in old(State()).dirty then slave[i] else old(cache[i])
    {
      hide Locked, Fair, Lost, Act, Enabled;
      ghost var c := State();
      var regData := slave[at..at + n];
      AskSpares(State(), at, n);
      task := Storing(at, regData);
      for i := 0 to n
        invariant Spared(c, State()) && task == Storing(at + i, regData[i..]) && slave == c.slave
        invariant Quiet(w) ==> State().dirty == old(State()).dirty
        invariant Quiet(w) ==> forall k :: 0 <= k < COUNT ==>
          cache[k] == if at <= k < at + i && k !in old(State()).dirty then slave[k] else old(cache[k])
      {
        Preempt(w);
        StoreSpares(State());
        assert regData[i..][1..] == regData[i + 1..];
        StoreReg(at + i, regData[i]);
        assert forall k :: 0 <= k < COUNT ==> cache[k] == State().cache[k];
      }
      FinishSpares(State());
      task := Free;
    }

    /** The transceive stage of `inter_comm_proc` after the configuration was read again: a frame is received and then
        what is dirty transmitted. */
    method Transceive(w: World, quan: nat, answered: bool) returns (errors: nat, ghost piece: (nat, int))
      requires Valid() && Fair(State()) && task == Free && 1 <= quan <= COUNT
      requires Tiled(CycleState()) || (currFrame == 0 && !readInProcess)
      modifies this
      modifies cache, mask
      ensures Fair(State()) && task == Free && Tiled(CycleState()) && old(writes) <= writes && old(sent) <= sent
      ensures Tiled(Next(old(CycleState()), Configure(quan)))
      ensures piece == Piece(Next(old(CycleState()), Configure(quan)))
      ensures CycleState() == Next(Next(old(CycleState()), Configure(quan)), Read)
      ensures Spared(old(State()), State()) || (errors >= 5 && SomeUnheard(w, old(writes), writes))
      ensures errors == (if answered then 0 else 1) + Failures(w, old(writes), writes)
      ensures errors == 0 <==> answered && forall k: nat :: old(writes) <= k < writes ==> GoodAt(w, k)
      ensures Quiet(w) ==> State().dirty == {} && forall i: nat :: i < COUNT ==>
        cache[i] == if answered && InPiece(piece, i) && i !in old(State()).dirty then old(slave)[i] else old(cache[i])
      ensures Quiet(w) ==> Carries(sent[|old(sent)|..], old(State()).dirty, State().cache, COUNT)
      ensures Quiet(w) && errors == 0 ==> slave == Written(old(slave), old(State()).dirty, State().cache, COUNT)
    {
      hide Locked, Fair, Lost, SomeUnheard, Carries, Written;
      ConfigUpdate(quan);
      var received, transmitted;
      received, piece := Receive(w, answered);
      transmitted := Transmit(w);
      errors := received + transmitted;
    }
  }

  lemma NothingTaken(at: nat, dirty: set<nat>, cache: seq<U16>)
    ensures TakenFrom(at, [], dirty, cache)
  {
  }

  /** The slave's registers once it has carried out the frame. */
  function WithFrame(slave: Regs, f: Frame): Regs
    requires f.at + |f.vals| <= COUNT
  {
    slave[..f.at] + f.vals + slave[f.at + |f.vals|..]
  }

  lemma WithFrameTwice(slave: Regs, f: Frame)
    requires f.at + |f.vals| <= COUNT
    ensures WithFrame(WithFrame(slave, f), f) == WithFrame(slave, f)
  {
  }

  lemma WithFrameHas(slave: Regs, f: Frame)
    requires f.at + |f.vals| <= COUNT
    ensures forall i: nat :: i < COUNT ==>
      WithFrame(slave, f)[i] == if Within(f, i) then f.vals[i - f.at] else slave[i]
  {
  }

  lemma ActionSpares(c: Comm, a: Action)
    requires Fair(c) && Enabled(c, a) && !a.GiveUp?
    ensures Spared(c, Act(c, a))
  {
    hide Fair, Lost, Enabled, Act;
    ActionKeeps(c, a);
  }

  lemma FinishSpares(c: Comm)
    requires Fair(c) && ((c.task.Sending? && c.task.vals == []) || (c.task.Storing? && c.task.got == []))
    ensures Spared(c, c.(task := Free))
  {
    hide Fair, Lost;
    ActionSpares(c, Finish);
  }

  /** A failed attempt spares the registers whether or not the slave carried it out. */
  lemma AttemptSpares(c: Comm)
    requires Fair(c) && c.task.Sending? && c.task.at + |c.task.vals| <= COUNT
    ensures Spared(c, Deliver(c))
  {
    hide Fair, Lost, Deliver;
    ActionSpares(c, Attempt(true));
  }

  lemma AskSpares(c: Comm, at: nat, n: nat)
    requires Fair(c) && c.task.Free? && at + n <= COUNT
    ensures Spared(c, Answer(c, at, n))
  {
    hide Fair, Lost, Answer;
    ActionSpares(c, Ask(at, n));
  }

  lemma StoreSpares(c: Comm)
    requires Fair(c) && c.task.Storing? && c.task.got != []
    ensures c.task.at < COUNT && Spared(c, Store(c))
  {
    hide Lost, Store;
    ActionSpares(c, StoreOne);
  }

  /** The end of the frame in `d` loses what is unsaved since `c`, if no attempt was heard, and nothing otherwise. */
  lemma GiveUpLoses(c: Comm, d: Comm, heard: bool)
    requires Spared(c, d) && d.task.Sending? && d.task.at + |d.task.vals| <= COUNT
    requires d.slave == if heard then WithFrame(c.slave, Frame(d.task.at, d.task.vals)) else c.slave
    ensures var e := d.(task := Free);
      && Fair(e)
      && forall i :: i !in Lost(c) ==>
        (i in Lost(e) <==> !heard && Unsaved(Frame(d.task.at, d.task.vals), c, e, i))
  {
    hide Fair, WithFrame;
    WithFrameHas(c.slave, Frame(d.task.at, d.task.vals));
    ActionKeeps(d, GiveUp);
  }

  lemma SparedUnlessUnheard(c: Comm, d: Comm, w: World, k: nat, errors: nat)
    requires Fair(d) && errors <= 5 && (errors < 5 ==> GoodAt(w, k + errors))
    requires forall i :: i !in Lost(c) && i in Lost(d) ==> AllUnheard(w, k)
    ensures Spared(c, d) || (errors == 5 && AllUnheard(w, k))
  {
    hide Fair, Lost;
    assert AllUnheard(w, k) && errors < 5 ==> UnheardAt(w, k + errors);
  }

  lemma DirtyBelow(c: Comm)
    requires Fair(c)
    ensures forall i :: i in c.dirty ==> i < COUNT
  {
  }

  lemma NothingCarried(dirty: set<nat>, cache: seq<U16>)
    ensures Carries([], dirty, cache, 0)
  {
  }

  lemma NoneLocked(mask: seq<bv8>)
    requires |mask| == MASK_BYTES && forall i :: 0 <= i < MASK_BYTES ==> mask[i] == 0
    ensures Locked(mask) == {}
  {
  }
}
