/** The EEPROM driver of drivers/at_eeprom.c over the I2C master. */
module AtEeprom {
  import opened BitNumbers
  import opened Common
  import opened EepromDevice
  import opened I2cBus
  import opened I2cMarks
  import opened I2cMaster
  import opened I2cProgress
  import opened I2cRuns
  import opened I2cSw
  import opened I2cTransfers
  import opened Octets

  // ---- transfers the slave acknowledges -------------------------------------------------------

  /** The slave acknowledges the four bytes of a word write and is otherwise silent. */
  predicate AcceptsWord(slave: Slave, f: nat) {
    && slave(f) && slave(f + 37)
    && forall k: nat :: k < 4 ==> Releases(slave, f + 1 + 9 * k) && !slave(f + 1 + 9 * k + 8)
  }

  /** The slave acknowledges the three addressing bytes of a word read. */
  predicate TakesRead(slave: Slave, f: nat) {
    && slave(f) && slave(f + 19) && slave(f + 46) && slave(f + 47)
    && Releases(slave, f + 1) && !slave(f + 9) && Releases(slave, f + 10) && !slave(f + 18)
    && Releases(slave, f + 20) && !slave(f + 28)
  }

  /** And it drives `hi` and then `lo`. */
  predicate ServesWord(slave: Slave, f: nat, hi: bv8, lo: bv8) {
    TakesRead(slave, f) && Driven(slave, f + 29) == hi && Driven(slave, f + 38) == lo
  }

  /** Every slave that acknowledges a word read serves some word: 256 times the first byte it drives and the second. */
  lemma ServedNumber(slave: Slave, f: nat)
    requires TakesRead(slave, f)
    ensures var word := Word(Driven(slave, f + 29), Driven(slave, f + 38));
      && ServesWord(slave, f, High(word), Low(word))
      && Value16(word) == 256 * FromByte(Driven(slave, f + 29)) + FromByte(Driven(slave, f + 38))
  {
    hide TakesRead, Driven, Word, High, Low, FromByte, Value16;
    HalvesBack(Driven(slave, f + 29), Driven(slave, f + 38));
    WordNumber(Driven(slave, f + 29), Driven(slave, f + 38));
  }

  /** From fall `f` on the slave acknowledges a read of `reg` and drives the word the device holds there. */
  predicate DrivesStored(slave: Slave, f: nat, d: Device, reg: bv16) {
    var word := WordAt(d.memory, reg);
    ServesWord(slave, f, High(word), Low(word))
  }

  lemma ShortIsEnded(r: Request)
    requires r.Fits()
    ensures Ended(r, Marks(r))
  {
  }

  lemma WordWrite(c: Core, reg: bv16, value: bv16, slave: Slave, events: seq<Event>)
    requires Idle(c, events) && AcceptsWord(slave, c.pins.falls)
    ensures var s := Submit(c, WriteRequest(reg, value));
      && Sound(s) && Run(s, slave, 81).busState == StopCond
    ensures var d := Run(Submit(c, WriteRequest(reg, value)), slave, 82);
      && d.busState == Done && d.error == ErrNone && d.recvByte == 0 && d.pins.falls == c.pins.falls + 37
      && BusFree(d, events + WriteShown(reg, value))
  {
    hide AddressByte, DeviceAddress, WordByte, High, Low, Run, Releases, Decode, Sound, Wire, Marks, BusFree;
    var r := WriteRequest(reg, value);
    var bytes := Opening(r);
    var e := c.pins.falls + 1;
    ShortIsEnded(r);
    SubmitKeepsSound(c, r, Marks(r), events);
    AllAcknowledged(bytes, slave, e);
    var sent := Sent(bytes, slave, e);
    assert sent == [Byte(bytes[0], true), Byte(bytes[1], true), Byte(bytes[2], true), Byte(bytes[3], true)];
    WriteTransfer(c, r, Marks(r), slave, events);
    assert events + [Start] + sent + [Stop] == events + WriteShown(reg, value);
  }

  lemma WordRead(c: Core, reg: bv16, hi: bv8, lo: bv8, slave: Slave, events: seq<Event>)
    requires Idle(c, events) && ServesWord(slave, c.pins.falls, hi, lo)
    ensures var s := Submit(c, ReadRequest(reg));
      && Sound(s) && Run(s, slave, 104).busState == StopCond
    ensures var d := Run(Submit(c, ReadRequest(reg)), slave, 105);
      && d.busState == Done && d.error == ErrNone && d.recvByte == 0
      && |d.shared.dataRx| == BUF_SIZE && d.shared.dataRx[..2] == [hi, lo]
      && BusFree(d, events + ReadShown(reg, hi, lo))
  {
    hide AddressByte, DeviceAddress, WordByte, Run, Releases, Decode, Sound, Driven, Courteous, Refused, Heard,
         DrivenBytes, BusFree, Wire, Marks;
    var r := ReadRequest(reg);
    var f := c.pins.falls;
    ShortIsEnded(r);
    SubmitKeepsSound(c, r, Marks(r), events);
    AddressingAccepted(r, slave, f);
    ReadTransfer(c, r, Marks(r), slave, events);
    TwoHeard(slave, f + 29);
    assert events + [Start, Byte(AddressByte(r.addr, 0), true), Byte(r.reg, true)]
        + [Start, Byte(AddressByte(r.addr, 1), true)] + [Byte(hi, true), Byte(lo, false)] + [Stop]
        == events + ReadShown(reg, hi, lo);
  }

  lemma TwoHeard(slave: Slave, e: nat)
    ensures Heard(slave, e, 2) == [Byte(Driven(slave, e), true), Byte(Driven(slave, e + 9), false)]
    ensures DrivenBytes(slave, e, 2) == [Driven(slave, e), Driven(slave, e + 9)]
  {
  }

  lemma AddressingAccepted(r: Request, slave: Slave, f: nat)
    requires r.Read? && slave(f + 19)
    requires Releases(slave, f + 1) && !slave(f + 9) && Releases(slave, f + 10) && !slave(f + 18)
    ensures Courteous(Opening(r), slave, f + 1) && !Refused(Opening(r), slave, f + 1)
  {
    hide AddressByte, Releases;
    var bytes := Opening(r);
    forall k: nat | k < |bytes|
      ensures !slave(f + 1 + 9 * k + 8) && Releases(slave, f + 1 + 9 * k)
    {
      if k == 0 { assert f + 1 + 9 * k == f + 1; } else { assert f + 1 + 9 * k == f + 10; }
    }
    AllAcknowledged(bytes, slave, f + 1);
  }

  // ---- polling --------------------------------------------------------------------------------

  /** Where a call's polling starts: submitted on an idle bus, on whatever is under way otherwise. */
  function Begun(c: Core, r: Request): Core
    requires r.Fits()
  {
    if c.busState == BusIdle then Submit(c, r) else c
  }

  /** What ends the polling. */
  predicate Over(d: Core) {
    d.error != ErrNone || d.busState == Done
  }

  /** The call that finds the transfer done frees the bus. */
  function Taken(d: Core): Core {
    if d.busState == Done then d.(busState := BusIdle) else d
  }

  /** What a read is answered with at the end of the polling. */
  function Answer(d: Core): bv16
    requires Sound(d)
  {
    if d.error != ErrNone then 0xFFFF else Word(d.shared.dataRx[0], d.shared.dataRx[1])
  }

  /** The caller's two bytes once the transfer was found done. */
  predicate Copied(data: seq<bv8>, d: Core) {
    |data| == 2 && (d.busState == Done ==> |d.shared.dataRx| == BUF_SIZE && data == d.shared.dataRx[..2])
  }

  lemma CopiedAnswer(data: seq<bv8>, d: Core)
    requires Sound(d) && Over(d) && d.error == ErrNone && Copied(data, d)
    ensures Word(data[0], data[1]) == Answer(d)
  {
    hide Word, Sound;
    assert d.shared.dataRx[..2][0] == d.shared.dataRx[0] && d.shared.dataRx[..2][1] == d.shared.dataRx[1];
  }

  lemma BusyBegun(d: Core, r: Request)
    requires r.Fits() && Busy(d.busState)
    ensures Begun(d, r) == d && d.busState != BusForceStop
    ensures !Over(d) ==> Taken(d) == d
  {
  }

  lemma BegunIsSound(c: Core, r: Request)
    requires Sound(c) && r.Fits() && c.busState != BusForceStop
    ensures Sound(Begun(c, r)) && Busy(Begun(c, r).busState)
    ensures c.busState == BusIdle ==> !Over(Begun(c, r))
  {
    hide Sound, Wire, Marks;
    CalledIsSound(c, r, n => 0);
    CalledShort(c, r, n => 0);
  }

  /** A call with a short request, whatever longer shifts make. */
  lemma CalledShort(c: Core, r: Request, beyond: Beyond)
    requires r.Fits()
    ensures Called(c, r, beyond) == Taken(Begun(c, r))
    ensures Over(Begun(c, r)) <==> Called(c, r, beyond).error != ErrNone || c.busState == Done
    ensures |c.shared.dataRx| == BUF_SIZE ==> |Begun(c, r).shared.dataRx| == BUF_SIZE
    ensures Begun(c, r).busState == Done ==> c.busState == Done && Begun(c, r) == c
  {
    hide Wire, Marks, MarksLeft;
    EndedIff(r, beyond);
  }

  /** Yields may be short, but time goes on. */
  ghost predicate Ticking(pace: nat -> nat) {
    forall i: nat :: SomeBeat(pace, i)
  }

  ghost predicate SomeBeat(pace: nat -> nat, i: nat) {
    exists j: nat :: Beat(pace, i, j)
  }

  ghost predicate Beat(pace: nat -> nat, i: nat, j: nat) {
    pace(i + j) > 0
  }

  lemma PollProgress(s: Core, slave: Slave, t: nat, ticks: nat)
    requires Sound(s) && Busy(s.busState) && Run(s, slave, t).busState != Done
    ensures var d, e := Run(s, slave, t), Run(s, slave, t + ticks);
      && Busy(d.busState) && Busy(e.busState) && e == Run(d, slave, ticks)
      && (ticks > 0 ==> Measure(e) < Measure(d))
  {
    hide Run, Sound, Tick;
    RunProgress(s, slave, t);
    RunAdds(s, slave, t, ticks);
    RunProgress(Run(s, slave, t), slave, ticks);
    RunningMeasure(Run(s, slave, t));
  }

  lemma AtStart(c: Core, slave: Slave)
    requires Sound(c)
    ensures Run(c, slave, 0) == c
  {
  }

  lemma IdleIsIdle(c: Core, events: seq<Event>)
    requires Idle(c, events)
    ensures c.busState == BusIdle
  {
  }

  /** The wait for the next tick, in yields. */
  ghost function NextBeat(pace: nat -> nat, i: nat): (j: nat)
    requires Ticking(pace)
    ensures Beat(pace, i, j)
  {
    assert SomeBeat(pace, i);
    var j: nat :| Beat(pace, i, j); j
  }

  /** A yield without a tick shortens the wait. */
  lemma EmptyYield(pace: nat -> nat, i: nat, j: nat)
    requires Beat(pace, i, j) && pace(i) == 0
    ensures j > 0 && Beat(pace, i + 1, j - 1)
  {
    assert i + 1 + (j - 1) == i + j;
  }

  lemma RunningMeasure(c: Core)
    requires Sound(c)
    ensures Running(c) ==> Measure(c) > 0
    ensures c.busState == Done ==> Measure(c) == 0
  {
  }

  /** Polling a word write that is acknowledged ends with exactly that write on the bus. */
  lemma WriteOutcome(c: Core, reg: bv16, value: bv16, slave: Slave, events: seq<Event>, t: nat)
    requires Idle(c, events) && AcceptsWord(slave, c.pins.falls) && Sound(Submit(c, WriteRequest(reg, value)))
    requires Over(Run(Submit(c, WriteRequest(reg, value)), slave, t))
    ensures var d := Run(Submit(c, WriteRequest(reg, value)), slave, t);
      && t > 81 && d.error == ErrNone && d.busState == Done
      && Idle(Taken(d), events + WriteShown(reg, value)) && d.pins.falls == c.pins.falls + 37
  {
    hide Run, AddressByte, DeviceAddress, WordByte, High, Low, WriteShown, AcceptsWord, Wire, Marks;
    WordWrite(c, reg, value, slave, events);
    PollSees(Submit(c, WriteRequest(reg, value)), slave, 81, t);
  }

  /** Polling a word read that is acknowledged ends with exactly that read on the bus and the word driven. */
  lemma ReadOutcome(c: Core, reg: bv16, word: bv16, slave: Slave, events: seq<Event>, t: nat)
    requires Idle(c, events) && ServesWord(slave, c.pins.falls, High(word), Low(word))
    requires Sound(Submit(c, ReadRequest(reg))) && Over(Run(Submit(c, ReadRequest(reg)), slave, t))
    ensures var d := Run(Submit(c, ReadRequest(reg)), slave, t);
      && t > 104 && d.error == ErrNone && d.busState == Done
      && Idle(Taken(d), events + ReadShown(reg, High(word), Low(word)))
      && |d.shared.dataRx| == BUF_SIZE && Word(d.shared.dataRx[0], d.shared.dataRx[1]) == word
  {
    hide Run, AddressByte, DeviceAddress, WordByte, High, Low, Word, ReadShown, ServesWord, Wire, Marks;
    WordRead(c, reg, High(word), Low(word), slave, events);
    PollSees(Submit(c, ReadRequest(reg)), slave, 104, t);
    Halves(word);
    var d := Run(Submit(c, ReadRequest(reg)), slave, t);
    assert d.shared.dataRx[..2][0] == d.shared.dataRx[0] && d.shared.dataRx[..2][1] == d.shared.dataRx[1];
  }

  /** A transfer that ends with an error is never polled to its end without one. */
  lemma RefusalIsSeen(s: Core, slave: Slave, n: nat, t: nat)
    requires Sound(s) && Run(s, slave, n).busState == Done && Run(s, slave, n).error != ErrNone
    requires Over(Run(s, slave, t))
    ensures Run(s, slave, t).error != ErrNone
  {
    hide Run, Sound;
    if t >= n {
      DoneStays(s, slave, n, t);
    } else if Run(s, slave, t).busState == Done {
      DoneStays(s, slave, t, n);
    }
  }

  /** The slave leaves SDA high for one of the two bytes that open a word read. */
  predicate RefusesOpening(slave: Slave, f: nat, reg: bv16) {
    var bytes := Opening(ReadRequest(reg));
    slave(f) && Courteous(bytes, slave, f + 1) && Refused(bytes, slave, f + 1)
  }

  /** The slave takes those and leaves SDA high for the second address byte. */
  predicate RefusesReading(slave: Slave, f: nat, reg: bv16) {
    var bytes := Opening(ReadRequest(reg));
    && slave(f) && Courteous(bytes, slave, f + 1) && !Refused(bytes, slave, f + 1)
    && Releases(slave, f + 20) && slave(f + 28) && slave(f + 29)
  }

  /** The slave refuses one of the three bytes the master sends for a word read. */
  predicate RefusesRead(slave: Slave, f: nat, reg: bv16) {
    RefusesOpening(slave, f, reg) || RefusesReading(slave, f, reg)
  }

  /** A read the slave refuses at any of its bytes is answered with all ones whenever the polling ends. */
  lemma RefusedReadOutcome(c: Core, reg: bv16, slave: Slave, events: seq<Event>, t: nat)
    requires Idle(c, events) && Sound(Submit(c, ReadRequest(reg)))
    requires RefusesRead(slave, c.pins.falls, reg)
    requires Over(Run(Submit(c, ReadRequest(reg)), slave, t))
    ensures Run(Submit(c, ReadRequest(reg)), slave, t).error != ErrNone
  {
    hide Run, Sound, Wire, Marks, AddressByte, DeviceAddress, WordByte, Courteous, Refused, Sent, Opening, Releases,
         Ended;
    var r := ReadRequest(reg);
    ShortIsEnded(r);
    if RefusesOpening(slave, c.pins.falls, reg) {
      ReadRefused(c, r, Marks(r), slave, events);
      RefusalIsSeen(Submit(c, r), slave, 19 * |Sent(Opening(r), slave, c.pins.falls + 1)| + 6, t);
    } else {
      ReadEnds(c, r, Marks(r), slave, events);
      RefusalIsSeen(Submit(c, r), slave, 67, t);
    }
  }

  lemma WriteAnswer(c: Core, reg: bv16, value: bv16, slave: Slave, events: seq<Event>, t: nat)
    requires Sound(Begun(c, WriteRequest(reg, value))) && Over(Run(Begun(c, WriteRequest(reg, value)), slave, t))
    ensures var d := Taken(Run(Begun(c, WriteRequest(reg, value)), slave, t));
      Idle(c, events) && AcceptsWord(slave, c.pins.falls) ==>
        Idle(d, events + WriteShown(reg, value)) && d.pins.falls == c.pins.falls + 37
  {
    hide Idle, Run, Sound, Submit, WriteRequest, WriteShown, AcceptsWord, Over;
    if Idle(c, events) && AcceptsWord(slave, c.pins.falls) {
      IdleIsIdle(c, events);
      WriteOutcome(c, reg, value, slave, events, t);
    }
  }

  lemma ReadAnswer(c: Core, reg: bv16, word: bv16, slave: Slave, events: seq<Event>, t: nat)
    requires Sound(Begun(c, ReadRequest(reg))) && Over(Run(Begun(c, ReadRequest(reg)), slave, t))
    ensures var d := Run(Begun(c, ReadRequest(reg)), slave, t);
      && (Idle(c, events) && RefusesRead(slave, c.pins.falls, reg) ==> Answer(d) == 0xFFFF)
      && (Idle(c, events) && ServesWord(slave, c.pins.falls, High(word), Low(word)) ==>
            Answer(d) == word && Idle(Taken(d), events + ReadShown(reg, High(word), Low(word))))
  {
    hide Idle, Run, Sound, Submit, ReadRequest, ReadShown, ServesWord, RefusesRead, Over, Taken, High, Low, Word;
    if Idle(c, events) {
      IdleIsIdle(c, events);
      if RefusesRead(slave, c.pins.falls, reg) {
        RefusedReadOutcome(c, reg, slave, events, t);
      }
      if ServesWord(slave, c.pins.falls, High(word), Low(word)) {
        ReadOutcome(c, reg, word, slave, events, t);
      }
    }
  }

  /** After a refused byte the error stays until the next submission: each further call is over at once, without a
      transfer, until one has found the bus done. */
  lemma RefusalAnswersNext(c: Core, r: Request, slave: Slave)
    requires Sound(c) && r.Fits() && c.error != ErrNone && c.busState != BusIdle
    ensures Begun(c, r) == c && Over(c) && Run(c, slave, 0) == c
    ensures Taken(c).error == c.error && (Taken(c).busState == BusIdle <==> c.busState == Done)
    ensures c.busState == Done ==> Begun(Taken(c), r) == Submit(Taken(c), r) && Submit(Taken(c), r).error == ErrNone
  {
    hide Wire, Marks;
  }

  class Eeprom {
    const i2c: Master

    constructor (beyond: Beyond)
      ensures i2c.Valid() && fresh(i2c) && fresh(i2c.Buffered()) && Idle(i2c.State(), [])
      ensures i2c.pins.falls == 0
    {
      i2c := new Master(beyond);
    }

    /** `taskYIELD`: other tasks run and the timer ticks meanwhile. */
    method Yield(ticks: nat, slave: Slave)
      requires i2c.Valid()
      modifies i2c, i2c.tx, i2c.rx, i2c.dataRx
      ensures i2c.Valid() && i2c.State() == Run(old(i2c.State()), slave, ticks)
    {
      hide Tick, Sound;
      ghost var before := i2c.State();
      for i := 0 to ticks
        invariant i2c.Valid() && i2c.State() == Run(before, slave, i)
      {
        i2c.TimeProc(slave);
        RunThen(before, slave, i);
      }
    }

    /** One turn of the writing loop. */
    method TryWrite(reg: bv16, value: bv16) returns (finished: bool)
      requires i2c.Valid() && i2c.State().busState != BusForceStop
      modifies i2c, i2c.Buffered()
      ensures var d := Begun(old(i2c.State()), WriteRequest(reg, value));
        i2c.Valid() && i2c.State() == Taken(d) && finished == Over(d)
    {
      hide Sound, AddressByte, DeviceAddress, WordByte, High, Low, Begun, Called, Over, Taken, MarkBits;
      CalledShort(i2c.State(), WriteRequest(reg, value), i2c.beyond);
      finished := i2c.RegWrite(DeviceAddress(reg), WordByte(reg), [High(value), Low(value)]);
    }

    /** One turn of the reading loop. */
    method TryRead(reg: bv16, data: array<bv8>) returns (finished: bool)
      requires i2c.Valid() && i2c.State().busState != BusForceStop && data.Length == 2
      requires data !in i2c.Buffered()
      modifies i2c, i2c.Buffered(), data
      ensures var d := Begun(old(i2c.State()), ReadRequest(reg));
        && i2c.Valid() && i2c.State() == Taken(d) && finished == Over(d)
        && Copied(data[..], d)
    {
      assert |i2c.State().shared.dataRx| == BUF_SIZE;
      hide Sound, AddressByte, DeviceAddress, WordByte, Begun, Called, Over, Taken, MarkBits;
      CalledShort(i2c.State(), ReadRequest(reg), i2c.beyond);
      finished := i2c.RegRead(DeviceAddress(reg), WordByte(reg), data, 2);
    }

    /** `at_eeprom_byte_write_16` from any state but a stopped bus: the polling ends whatever the slave drives, at
        once if the last transfer failed and is not taken yet, and otherwise at the end of the transfer or with an
        error. Acknowledged on an idle bus, exactly one word write has been shown. `pace(i)` is the length of the
        i-th yield in ticks. */
    method ByteWrite16(reg: bv16, value: bv16, slave: Slave, pace: nat -> nat, ghost events: seq<Event>)
      returns (ghost t: nat)
      requires i2c.Valid() && i2c.State().busState != BusForceStop && Ticking(pace)
      modifies i2c, i2c.Buffered()
      ensures i2c.Valid()
      ensures var s := Begun(old(i2c.State()), WriteRequest(reg, value));
        && Sound(s) && Over(Run(s, slave, t)) && i2c.State() == Taken(Run(s, slave, t))
        && (Over(s) ==> t == 0)
      ensures old(Idle(i2c.State(), events)) && AcceptsWord(slave, old(i2c.State().pins.falls)) ==>
        Idle(i2c.State(), events + WriteShown(reg, value)) && i2c.State().pins.falls == old(i2c.State().pins.falls) + 37
    {
      hide Run, Sound, Tick, AddressByte, DeviceAddress, WordByte, High, Low, WriteShown, AcceptsWord, Idle, Wire,
           Marks, MarkBits, Measure, Ticking, Beat, Copied, Master.State, Begun;
      ghost var c, r := i2c.State(), WriteRequest(reg, value);
      ghost var s := Begun(c, r);
      BegunIsSound(c, r);
      AtStart(s, slave);
      var finished := TryWrite(reg, value);
      var polls := 0;
      t := 0;
      ghost var wait := NextBeat(pace, 0);
      while !finished
        invariant i2c.Valid() && i2c.State() == Taken(Run(s, slave, t)) && finished == Over(Run(s, slave, t))
        invariant Busy(Run(s, slave, t).busState) && (Over(s) ==> t == 0 && finished) && Beat(pace, polls, wait)
        decreases Measure(Run(s, slave, t)), wait
      {
        var ticks := pace(polls);
        BusyBegun(i2c.State(), r);
        PollProgress(s, slave, t, ticks);
        Yield(ticks, slave);
        if ticks > 0 {
          wait := NextBeat(pace, polls + 1);
        } else {
          EmptyYield(pace, polls, wait);
          wait := wait - 1;
        }
        t, polls := t + ticks, polls + 1;
        BusyBegun(i2c.State(), r);
        finished := TryWrite(reg, value);
      }
      WriteAnswer(c, reg, value, slave, events, t);
    }

    /** The reading loop. */
    method PollRead(reg: bv16, data: array<bv8>, slave: Slave, pace: nat -> nat) returns (ghost t: nat)
      requires i2c.Valid() && i2c.State().busState != BusForceStop && Ticking(pace)
      requires data.Length == 2 && data !in i2c.Buffered()
      modifies i2c, i2c.Buffered(), data
      ensures i2c.Valid()
      ensures var s := Begun(old(i2c.State()), ReadRequest(reg));
        && Sound(s) && Over(Run(s, slave, t)) && i2c.State() == Taken(Run(s, slave, t))
        && (Over(s) ==> t == 0) && Copied(data[..], Run(s, slave, t))
    {
      hide Run, Sound, Tick, AddressByte, DeviceAddress, WordByte, Wire, Marks, MarkBits, Measure, Ticking, Beat,
           Copied, Master.State, Begun;
      ghost var c, r := i2c.State(), ReadRequest(reg);
      ghost var s := Begun(c, r);
      BegunIsSound(c, r);
      AtStart(s, slave);
      var finished := TryRead(reg, data);
      var polls := 0;
      t := 0;
      ghost var wait := NextBeat(pace, 0);
      while !finished
        invariant i2c.Valid() && i2c.State() == Taken(Run(s, slave, t)) && finished == Over(Run(s, slave, t))
        invariant Busy(Run(s, slave, t).busState) && (Over(s) ==> t == 0 && finished) && Beat(pace, polls, wait)
        invariant Copied(data[..], Run(s, slave, t))
        decreases Measure(Run(s, slave, t)), wait
      {
        var ticks := pace(polls);
        BusyBegun(i2c.State(), r);
        PollProgress(s, slave, t, ticks);
        Yield(ticks, slave);
        if ticks > 0 {
          wait := NextBeat(pace, polls + 1);
        } else {
          EmptyYield(pace, polls, wait);
          wait := wait - 1;
        }
        t, polls := t + ticks, polls + 1;
        BusyBegun(i2c.State(), r);
        finished := TryRead(reg, data);
      }
    }

    /** `at_eeprom_rand_read_16` from any state but a stopped bus: the polling ends whatever the slave drives, with
        all ones after an error and the first two received bytes otherwise. Refused on an idle bus, the value is all
        ones; acknowledged, exactly one word read has been shown and the value is the word the slave drove. */
    method RandRead16(reg: bv16, slave: Slave, pace: nat -> nat, ghost events: seq<Event>, ghost word: bv16)
      returns (value: bv16, ghost t: nat)
      requires i2c.Valid() && i2c.State().busState != BusForceStop && Ticking(pace)
      modifies i2c, i2c.Buffered()
      ensures i2c.Valid()
      ensures var s := Begun(old(i2c.State()), ReadRequest(reg));
        && Sound(s) && Over(Run(s, slave, t)) && i2c.State() == Taken(Run(s, slave, t))
        && (Over(s) ==> t == 0) && value == Answer(Run(s, slave, t))
      ensures old(Idle(i2c.State(), events)) && RefusesRead(slave, old(i2c.State().pins.falls), reg) ==>
        value == 0xFFFF
      ensures var f := old(i2c.State().pins.falls);
        old(Idle(i2c.State(), events)) && ServesWord(slave, f, High(word), Low(word)) ==>
          value == word && Idle(i2c.State(), events + ReadShown(reg, High(word), Low(word)))
    {
      hide Run, Sound, High, Low, ReadShown, ServesWord, RefusesRead, Idle, Ticking, Copied, Master.State,
           Begun;
      ghost var c := i2c.State();
      var data := new bv8[2];
      t := PollRead(reg, data, slave, pace);
      ghost var d := Run(Begun(c, ReadRequest(reg)), slave, t);
      var failure := i2c.ErrorGet();
      if failure != ErrNone {
        data[0], data[1] := 0xFF, 0xFF;
      } else {
        CopiedAnswer(data[..], d);
      }
      value := Word(data[0], data[1]);
      ReadAnswer(c, reg, word, slave, events, t);
    }

    /** A word written and any word read back from a device that drives what it holds: the read gives the written
        value exactly for the registers the write hits, and the old word for the others. */
    method WriteThenRead(reg: bv16, value: bv16, other: bv16, slave: Slave, pace: nat -> nat,
                         ghost boot: map<Cell, bv8>, ghost events: seq<Event>)
      returns (word: bv16)
      requires i2c.Valid() && Idle(i2c.State(), events) && Ticking(pace)
      requires AcceptsWord(slave, i2c.State().pins.falls)
      requires var d := DeviceAfter(boot, events + WriteShown(reg, value));
        DrivesStored(slave, i2c.State().pins.falls + 37, d, other)
      modifies i2c, i2c.Buffered()
      ensures word == if Hits(reg, other) then value else WordAt(DeviceAfter(boot, events).memory, other)
      ensures i2c.Valid() && exists hi, lo ::
        Idle(i2c.State(), events + WriteShown(reg, value) + ReadShown(other, hi, lo))
    {
      hide Run, Sound, WriteRequest, ReadRequest, High, Low, WriteShown, ReadShown, AcceptsWord, ServesWord, Idle, Hits,
           WordAt, DeviceAfter, Ticking, Begun, Over, Taken, Answer, Master.State;
      IdleIsIdle(i2c.State(), events);
      WriteEffect(boot, events, reg, value, other);
      ghost var stored := WordAt(DeviceAfter(boot, events + WriteShown(reg, value)).memory, other);
      ghost var t := ByteWrite16(reg, value, slave, pace, events);
      assert ServesWord(slave, i2c.State().pins.falls, High(stored), Low(stored));
      IdleIsIdle(i2c.State(), events + WriteShown(reg, value));
      word, t := RandRead16(other, slave, pace, events + WriteShown(reg, value), stored);
    }
  }
}
