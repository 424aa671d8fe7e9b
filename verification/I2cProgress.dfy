/** Every transfer comes to an end, whatever the slave drives. */
module I2cProgress {
  import opened I2cBus
  import opened I2cSw
  import opened I2cTransfers

  /** Ticks to allow for a byte, with a repeated START before it. */
  const BYTE_TICKS := 24

  /** Bytes of the sequence not yet handled, the current one included. */
  function BytesLeft(c: Core): nat {
    if c.job.ptrTx < c.job.dataSize then c.job.dataSize - c.job.ptrTx else 0
  }

  /** Ticks to allow once the current byte is over. */
  function AfterByte(c: Core): nat {
    3 + BYTE_TICKS * (if BytesLeft(c) > 1 then BytesLeft(c) - 1 else 0)
  }

  /** Ticks to allow until the transfer is done. */
  function Measure(c: Core): nat
    requires Sound(c)
  {
    match c.busState
    case MsgPrepare => 26 + BYTE_TICKS * c.shared.commSeqSize
    case StartRepeat => 22 + AfterByte(c)
    case StartCond => 21 - c.clkToggles + AfterByte(c)
    case CmdSend => 19 + AfterByte(c)
    case DataSend => 18 - c.clkToggles + AfterByte(c)
    case DataRead => 18 - c.clkToggles + AfterByte(c)
    case SequenceHandle => AfterByte(c)
    case StopCond => 2 - c.clkToggles
    case _ => 0
  }

  /** A transfer under way. */
  predicate Running(c: Core) {
    Busy(c.busState) && c.busState != Done
  }

  lemma CommandProgress(c: Core, slave: Slave)
    requires Sound(c) && c.busState == CmdSend && Sound(Settled(Act(c, slave)))
    ensures Measure(Settled(Act(c, slave))) < Measure(c)
  {
    hide WriteStep;
    var d := c.(dataSeq := if c.job.tx[c.job.ptrTx] & 1 != 0 then DataRead else DataSend, busState := DataSend);
    StepsTouchLittle(d, c.job.tx[c.job.ptrTx], slave);
  }

  lemma SendProgress(c: Core, slave: Slave)
    requires Sound(c) && c.busState == DataSend && Sound(Settled(DataSendStep(c, slave)))
    ensures Measure(Settled(DataSendStep(c, slave))) < Measure(c)
  {
    hide WriteStep;
    StepsTouchLittle(c, c.job.tx[c.job.ptrTx], slave);
  }

  lemma ReadProgress(c: Core, slave: Slave)
    requires Sound(c) && c.busState == DataRead && Sound(Settled(DataReadStep(c, slave)))
    ensures Measure(Settled(DataReadStep(c, slave))) < Measure(c)
  {
    hide ReadStep;
    StepsTouchLittle(c, 0, slave);
  }

  lemma ControlProgress(c: Core, slave: Slave)
    requires Sound(c) && Sound(Settled(Act(c, slave)))
    requires c.busState in {MsgPrepare, SequenceHandle, StopCond, StartRepeat, StartCond}
    ensures Measure(Settled(Act(c, slave))) < Measure(c)
  {
    hide Bit, WithBit, Pins.WriteSda, Pins.WriteSck, Pins.Line, Zeros, DataSendStep, DataReadStep;
  }

  lemma PreparedMeasure(c: Core)
    requires Sound(c) && Sound(Prepared(c))
    ensures Measure(Prepared(c)) == Measure(c)
  {
  }

  /** Each tick of a transfer under way brings its end nearer. */
  lemma TickProgress(c: Core, slave: Slave)
    requires Sound(c) && Running(c)
    ensures Sound(Tick(c, slave)) && Measure(Tick(c, slave)) < Measure(c)
  {
    hide Settled, Sound, DataSendStep, DataReadStep, Zeros, Pins.WriteSda, Pins.WriteSck, Measure;
    TickKeepsSound(c, slave);
    PreparedKeepsSound(c);
    PreparedMeasure(c);
    var p := Prepared(c);
    match c.busState {
      case CmdSend => CommandProgress(p, slave);
      case DataSend => SendProgress(p, slave);
      case DataRead => ReadProgress(p, slave);
      case _ => ControlProgress(p, slave);
    }
  }

  /** After any number of ticks a transfer is nearer its end or over. */
  lemma {:induction false} RunProgress(c: Core, slave: Slave, ticks: nat)
    requires Sound(c) && Busy(c.busState)
    ensures var d := Run(c, slave, ticks);
      Busy(d.busState) && (d.busState == Done || Measure(d) + ticks <= Measure(c))
  {
    hide Tick, Measure, Busy, Sound;
    if ticks > 0 {
      RunProgress(c, slave, ticks - 1);
      var d := Run(c, slave, ticks - 1);
      BusyTick(d, slave);
      if d.busState == Done {
        DoneStays(c, slave, ticks - 1, ticks);
      } else {
        TickProgress(d, slave);
      }
    }
  }

  /** Whatever the slave drives and whatever marks an accepted request leaves, it is done after at most 24 ticks a byte
      and 26 more, and stays done. */
  lemma TransferEnds(c: Core, r: Request, marks: seq<bool>, slave: Slave, ticks: nat)
    requires Sound(SubmitMarked(c, r, marks)) && ticks > BYTE_TICKS * r.Length() + 26
    ensures Run(SubmitMarked(c, r, marks), slave, ticks).busState == Done
  {
    hide Run, Sound, Wire;
    RunProgress(SubmitMarked(c, r, marks), slave, ticks);
  }
}
