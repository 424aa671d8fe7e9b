/** The timer-driven I2C master of drivers/i2c_sw.cpp. */
module I2cSw {
  import opened I2cBus
  import opened I2cMarks

  datatype BusState =
    | BusIdle | MsgPrepare | StartRepeat | StartCond | CmdSend | DataSend | DataRead
    | SequenceHandle | StopCond | Done | BusForceStop

  datatype Err = ErrNone | ErrBusy | ErrOverflow | ErrAck

  /** Module variables shared with the caller. `seqEnding` holds the bits of the end-mark words in order. */
  datatype Buffers = Buffers(dataTx: seq<bv8>, dataRx: seq<bv8>, commSeqSize: nat, rxSize: nat, seqEnding: seq<bool>)

  /** The timer routine's own copies and cursors. */
  datatype Job = Job(tx: seq<bv8>, rx: seq<bv8>, ptrTx: nat, ptrRx: nat, dataSize: nat)

  /** The driver's whole state between two ticks, with the pins. */
  datatype Core = Core(
    shared: Buffers, busState: BusState, error: Err,
    clkToggles: nat, statePrev: BusState, dataSeq: BusState, job: Job,
    recvByte: bv8, seqMsgFinal: bool, pins: Pins)

  // ---- one request --------------------------------------------------------------------------

  datatype Request = Write(addr: bv16, reg: bv8, data: seq<bv8>) | Read(addr: bv16, reg: bv8, size: nat) {

    /** Bytes on the wire: address, register, then data; a read addresses the slave twice. */
    function Length(): nat {
      match this
      case Write(_, _, data) => 2 + |data|
      case Read(_, _, size) => 3 + size
    }

    /** The size argument of the caller. */
    function Size(): nat {
      match this
      case Write(_, _, data) => |data|
      case Read(_, _, size) => size
    }

    /** The end marks need no shift beyond 31. */
    predicate Fits() {
      Length() <= 32
    }
  }

  function AddressByte(addr: bv16, rw: bv16): bv8 {
    (((addr << 1) | rw) & 0xFF) as bv8
  }

  function Zeros(n: nat): (s: seq<bv8>)
    ensures |s| == n && forall i :: 0 <= i < n ==> s[i] == 0
  {
    seq(n, i => 0)
  }

  /** The transmit cells a request is laid into. */
  function CellsUsed(r: Request): nat {
    match r
    case Write(_, _, data) => 2 + |data|
    case Read(_, _, _) => 3
  }

  /** The request's bytes laid into the flushed transmit buffer, or past its end. */
  function Wire(r: Request): (s: seq<bv8>)
    ensures |s| == if CellsUsed(r) <= BUF_SIZE then BUF_SIZE else CellsUsed(r)
  {
    match r
    case Write(addr, reg, data) =>
      [AddressByte(addr, 0), reg] + data + Zeros(if 2 + |data| <= BUF_SIZE then BUF_SIZE - 2 - |data| else 0)
    case Read(addr, reg, size) =>
      [AddressByte(addr, 0), reg, AddressByte(addr, 1)] + Zeros(BUF_SIZE - 3)
  }

  /** Where a short request ends a sequence: before a repeated START and at the last byte. */
  function Marks(r: Request): (s: seq<bool>)
    requires r.Fits()
    ensures |s| == BUF_SIZE
    ensures forall i :: 0 <= i < BUF_SIZE ==> s[i] == (i == r.Length() - 1 || (r.Read? && i == 1))
  {
    (if r.Read? then Unmarked()[1 := true] else Unmarked())[r.Length() - 1 := true]
  }

  /** The end marks any request leaves in flushed words. */
  function MarksLeft(r: Request, beyond: Beyond): (s: seq<bool>)
    ensures |s| == BUF_SIZE
  {
    Marking(if r.Read? then Marking(Unmarked(), 1, beyond) else Unmarked(), r.Length() - 1, beyond)
  }

  /** The marks end the sequence where it should end. A write ends with its last byte, marked or not. */
  predicate Ended(r: Request, marks: seq<bool>) {
    && r.Length() <= BUF_SIZE == |marks|
    && (forall i :: 0 <= i < r.Length() - 1 ==> marks[i] == (r.Read? && i == 1))
    && (r.Read? ==> marks[r.Length() - 1])
  }

  /** The shift for byte `n` meets none of those before it. */
  predicate ShiftsApart(n: nat, beyond: Beyond) {
    forall i: nat :: i < n ==> !Meets(n, i, beyond)
  }

  /** The marks are right for up to 32 bytes. Beyond, exactly if the last byte's shift comes out apart from those
      before it, and for a read not zero. */
  lemma EndedIff(r: Request, beyond: Beyond)
    requires r.Length() <= BUF_SIZE
    ensures var n := r.Length() - 1;
      Ended(r, MarksLeft(r, beyond)) <==>
        r.Fits() || (ShiftsApart(n, beyond) && (r.Read? ==> Meets(n, n, beyond)))
    ensures r.Fits() ==> MarksLeft(r, beyond) == Marks(r)
  {
    hide Meets;
    var n := r.Length() - 1;
    forall i | 0 <= i < BUF_SIZE
      ensures Meets(1, i, beyond) <==> i == 1
      ensures n < 32 ==> (Meets(n, i, beyond) <==> i == n)
    {
      MeetsBelow(1, i, beyond);
      if n < 32 {
        MeetsBelow(n, i, beyond);
      }
    }
    if n >= 32 {
      assert !Meets(n, 1, beyond) by { MeetsNear(n, 1, beyond); }
    }
  }

  lemma MeetsNear(n: nat, i: nat, beyond: Beyond)
    ensures Meets(n, i, beyond) ==> n / 32 == i / 32
  {
  }

  /** Where shifts of 32 and more give zero, every write ends right, and a read exactly up to 32 bytes. */
  lemma ZeroShifts(r: Request)
    requires r.Length() <= BUF_SIZE
    ensures Ended(r, MarksLeft(r, n => 0)) <==> r.Write? || r.Fits()
  {
    hide Tests;
    EndedIff(r, n => 0);
    var n, beyond: Beyond := r.Length() - 1, n => 0;
    if n >= 32 {
      forall i: nat
        ensures !Meets(n, i, beyond)
      {
        NothingTested(OneShifted(i, beyond));
      }
    }
  }

  /** A call of `i2c_sw_exec` that is accepted on an idle bus and leaves `marks`. */
  function SubmitMarked(c: Core, r: Request, marks: seq<bool>): Core {
    c.(shared := Buffers(Wire(r), Zeros(BUF_SIZE), r.Length(), 0, marks), error := ErrNone, busState := MsgPrepare)
  }

  function Submit(c: Core, r: Request): Core
    requires r.Fits()
  {
    SubmitMarked(c, r, Marks(r))
  }

  /** A call of `i2c_sw_exec` in any state. The guard counts one byte beside the data, although two or three are
      added. */
  function Called(c: Core, r: Request, beyond: Beyond): Core {
    if c.busState == BusIdle then
      if r.Size() + 1 <= BUF_SIZE then SubmitMarked(c, r, MarksLeft(r, beyond)) else c.(error := ErrOverflow)
    else if c.busState == Done then c.(busState := BusIdle)
    else c
  }

  /** The received cells the call copies to its caller: as many as a read asks for, once the bus is done. */
  function CopiedOut(c: Core, r: Request): nat {
    if c.busState == Done && r.Read? then r.size else 0
  }

  /** `i2c_sw_bus_stop` and `i2c_sw_bus_resume`. */
  function Stopped(c: Core): Core {
    c.(busState := BusForceStop)
  }

  function Resumed(c: Core): Core {
    if c.busState == BusForceStop then c.(busState := BusIdle) else c
  }

  // ---- one timer tick -----------------------------------------------------------------------

  /** No index leaves its buffer. */
  predicate Sound(c: Core) {
    && SoundBuffers(c.shared) && SoundJob(c.job)
    && (c.dataSeq.DataSend? || c.dataSeq.DataRead?)
    && (InFrame(c.busState) ==> c.job.ptrTx < BUF_SIZE && c.job.ptrRx <= c.job.ptrTx)
    && (c.busState.SequenceHandle? ==> c.job.ptrTx < BUF_SIZE && c.job.ptrRx <= c.job.ptrTx + 1)
    && (c.busState.CmdSend? || c.busState.DataSend? || c.busState.DataRead? ==> c.clkToggles < 18)
    && (c.busState.StartCond? || c.busState.StopCond? ==> c.clkToggles < 2)
    && (OffBus(c.busState) && c.statePrev.StartCond? ==> c.clkToggles < 2)
    && (!OffBus(c.busState) ==> c.busState == c.statePrev)
  }

  predicate SoundBuffers(b: Buffers) {
    |b.dataTx| == |b.dataRx| == |b.seqEnding| == BUF_SIZE && b.commSeqSize <= BUF_SIZE
  }

  predicate SoundJob(j: Job) {
    |j.tx| == |j.rx| == BUF_SIZE && j.dataSize <= BUF_SIZE
  }

  predicate InFrame(s: BusState) {
    s.StartRepeat? || s.StartCond? || s.CmdSend? || s.DataSend? || s.DataRead?
  }

  /** States another task may set between two ticks. */
  predicate OffBus(s: BusState) {
    s.MsgPrepare? || s.BusIdle? || s.BusForceStop?
  }

  predicate Bit(b: bv8, k: nat)
    requires k < 8
  {
    (b << k) & 0x80 != 0
  }

  /** The receive accumulator with data bit `k` added. */
  function WithBit(acc: bv8, bit: bool, k: nat): bv8
    requires k < 8
  {
    acc | ((if bit then 1 else 0) << (7 - k))
  }

  /** `i2c_execute_write`. */
  function WriteStep(c: Core, data: bv8, slave: Slave): Core
    requires c.clkToggles < 18
  {
    var k := c.clkToggles / 2;
    var even := c.clkToggles % 2 == 0;
    var p := c.pins.WriteSck(!even, slave);
    if even then c.(pins := p.WriteSda(if k < 8 then Bit(data, k) else true, slave))
    else if k < 8 then c.(pins := p)
    else c.(pins := p, error := if p.Line(slave) then ErrAck else ErrNone)
  }

  /** `i2c_execute_read`. */
  function ReadStep(c: Core, slave: Slave): Core
    requires c.clkToggles < 18
  {
    var k := c.clkToggles / 2;
    var even := c.clkToggles % 2 == 0;
    var p := c.pins.WriteSck(!even, slave);
    if even then c.(pins := p.WriteSda(if k < 8 then true else c.seqMsgFinal, slave))
    else if k < 8 then
      c.(pins := p, recvByte := WithBit(c.recvByte, p.Line(slave), k))
    else c.(pins := p)
  }

  function DataSendStep(c: Core, slave: Slave): Core
    requires c.clkToggles < 18 && c.job.ptrTx < |c.job.tx|
  {
    var w := WriteStep(c, c.job.tx[c.job.ptrTx], slave);
    w.(busState := if c.clkToggles == 17 then SequenceHandle else c.busState, clkToggles := c.clkToggles + 1)
  }

  function DataReadStep(c: Core, slave: Slave): Core
    requires c.clkToggles < 18 && c.job.ptrRx < |c.job.rx|
  {
    var r := ReadStep(c, slave).(clkToggles := c.clkToggles + 1);
    if c.clkToggles == 17 then
      r.(job := r.job.(rx := r.job.rx[r.job.ptrRx := r.recvByte], ptrRx := r.job.ptrRx + 1),
         recvByte := 0, busState := SequenceHandle)
    else r
  }

  /** The switch of the timer routine. */
  function Act(c: Core, slave: Slave): Core
    requires Sound(c)
  {
    match c.busState
    case BusIdle => c.(pins := c.pins.WriteSda(true, slave).WriteSck(true, slave))
    case MsgPrepare =>
      var n := c.shared.commSeqSize;
      c.(job := Job(c.shared.dataTx[..n] + Zeros(BUF_SIZE - n), Zeros(BUF_SIZE), 0, 0, n), busState := StartCond)
    case StartRepeat =>
      c.(pins := c.pins.WriteSda(false, slave).WriteSck(false, slave), busState := StartCond)
    case StartCond =>
      if c.clkToggles == 0 then
        c.(pins := c.pins.WriteSda(true, slave).WriteSck(true, slave), clkToggles := c.clkToggles + 1)
      else
        c.(pins := c.pins.WriteSda(false, slave), busState := CmdSend, clkToggles := c.clkToggles + 1)
    case CmdSend =>
      var next := if c.job.tx[c.job.ptrTx] & 1 != 0 then DataRead else DataSend;
      DataSendStep(c.(dataSeq := next, busState := DataSend), slave)
    case DataSend => DataSendStep(c, slave)
    case DataRead => DataReadStep(c, slave)
    case SequenceHandle =>
      var s := c.(pins := c.pins.WriteSck(false, slave).WriteSda(false, slave));
      if s.error != ErrNone then s.(busState := StopCond)
      else
        var t := s.(job := s.job.(ptrTx := s.job.ptrTx + 1));
        if t.job.ptrTx < t.job.dataSize then t.(busState := if t.seqMsgFinal then StartRepeat else t.dataSeq)
        else t.(busState := StopCond)
    case StopCond =>
      if c.clkToggles == 0 then
        c.(pins := c.pins.WriteSda(false, slave).WriteSck(true, slave), clkToggles := c.clkToggles + 1)
      else
        c.(pins := c.pins.WriteSda(true, slave).WriteSck(true, slave),
           shared := c.shared.(rxSize := c.job.ptrRx, dataRx := c.job.rx),
           busState := Done, clkToggles := c.clkToggles + 1)
    case Done => c
    case BusForceStop => c
  }

  /** The end mark of the current byte, looked up before every step. */
  function Prepared(c: Core): Core
    requires Sound(c)
  {
    c.(seqMsgFinal := if c.job.ptrTx < BUF_SIZE then c.shared.seqEnding[c.job.ptrTx] else true)
  }

  /** A change of state restarts the toggle count. */
  function Settled(a: Core): Core {
    if a.statePrev != a.busState then a.(statePrev := a.busState, clkToggles := 0) else a
  }

  /** One call of `i2c_sw_bus_timeproc`. */
  function Tick(c: Core, slave: Slave): Core
    requires Sound(c)
  {
    Settled(Act(Prepared(c), slave))
  }

  /** No run, whatever the slave drives, takes an index out of its buffer. */
  lemma TickKeepsSound(c: Core, slave: Slave)
    requires Sound(c)
    ensures Sound(Tick(c, slave))
  {
    hide Settled, Sound, DataSendStep, DataReadStep, Zeros, Pins.WriteSda, Pins.WriteSck;
    PreparedKeepsSound(c);
    var p := Prepared(c);
    match c.busState {
      case CmdSend => CommandKeepsSound(p, slave);
      case DataSend => SendKeepsSound(p, slave);
      case DataRead => ReadKeepsSound(p, slave);
      case MsgPrepare => PrepareKeepsSound(p, slave);
      case SequenceHandle => MessageKeepsSound(p, slave);
      case StopCond => MessageKeepsSound(p, slave);
      case _ => ControlKeepsSound(p, slave);
    }
  }

  lemma PreparedKeepsSound(c: Core)
    requires Sound(c)
    ensures Sound(Prepared(c)) && Prepared(c).busState == c.busState
  {
  }

  lemma StepsTouchLittle(c: Core, data: bv8, slave: Slave)
    requires c.clkToggles < 18
    ensures var w := WriteStep(c, data, slave); w == c.(pins := w.pins, error := w.error)
    ensures var r := ReadStep(c, slave); r == c.(pins := r.pins, recvByte := r.recvByte)
  {
  }

  lemma SendKeepsSound(c: Core, slave: Slave)
    requires Sound(c) && c.busState == DataSend
    ensures Sound(Settled(DataSendStep(c, slave)))
  {
    hide WriteStep;
    StepsTouchLittle(c, c.job.tx[c.job.ptrTx], slave);
  }

  lemma ReadKeepsSound(c: Core, slave: Slave)
    requires Sound(c) && c.busState == DataRead
    ensures Sound(Settled(DataReadStep(c, slave)))
  {
    hide ReadStep;
    StepsTouchLittle(c, 0, slave);
  }

  lemma CommandKeepsSound(c: Core, slave: Slave)
    requires Sound(c) && c.busState == CmdSend
    ensures Sound(Settled(Act(c, slave)))
  {
    hide WriteStep;
    var d := c.(dataSeq := if c.job.tx[c.job.ptrTx] & 1 != 0 then DataRead else DataSend, busState := DataSend);
    StepsTouchLittle(d, c.job.tx[c.job.ptrTx], slave);
  }

  lemma PrepareKeepsSound(c: Core, slave: Slave)
    requires Sound(c) && c.busState == MsgPrepare
    ensures Sound(Settled(Act(c, slave)))
  {
    hide Bit, WithBit, Pins.WriteSda, Pins.WriteSck, Pins.Line, DataSendStep, DataReadStep;
  }

  lemma MessageKeepsSound(c: Core, slave: Slave)
    requires Sound(c) && c.busState in {SequenceHandle, StopCond}
    ensures Sound(Settled(Act(c, slave)))
  {
    hide Bit, WithBit, Pins.WriteSda, Pins.WriteSck, Pins.Line, Zeros, DataSendStep, DataReadStep;
  }

  lemma ControlKeepsSound(c: Core, slave: Slave)
    requires Sound(c) && c.busState in {BusIdle, BusForceStop, StartRepeat, StartCond, Done}
    ensures Sound(Settled(Act(c, slave)))
  {
    hide Bit, WithBit, Pins.WriteSda, Pins.WriteSck, Pins.Line, Zeros, DataSendStep, DataReadStep;
  }

  /** The call neither lays out nor copies out anything beyond its buffers, and no later tick does. */
  predicate CallStays(c: Core, r: Request, beyond: Beyond) {
    Sound(Called(c, r, beyond)) && CopiedOut(c, r) <= |c.shared.dataRx|
  }

  /** On an idle bus a call stays in the buffers exactly if it is refused or its sequence fits them; a read that finds
      the bus done, exactly if it wants no more than the receive buffer has; any other call always. */
  lemma CallStaysIff(c: Core, r: Request, beyond: Beyond)
    requires Sound(c)
    ensures CallStays(c, r, beyond) <==>
      if c.busState == BusIdle then r.Length() <= BUF_SIZE || r.Size() >= BUF_SIZE
      else c.busState == Done && r.Read? ==> r.Size() <= BUF_SIZE
  {
    hide Zeros, AddressByte;
  }

  lemma CalledIsSound(c: Core, r: Request, beyond: Beyond)
    requires Sound(c) && (c.busState == BusIdle ==> r.Length() <= BUF_SIZE || r.Size() >= BUF_SIZE)
    ensures Sound(Called(c, r, beyond))
  {
    hide Zeros, AddressByte;
  }

  /** A write of 127 bytes is accepted, and its last byte lies behind the buffer. */
  lemma LongWriteOverruns(c: Core, addr: bv16, reg: bv8, beyond: Beyond)
    requires Sound(c) && c.busState == BusIdle
    ensures var r := Write(addr, reg, Zeros(127));
      && Called(c, r, beyond).busState == MsgPrepare && CellsUsed(r) == BUF_SIZE + 1
      && !CallStays(c, r, beyond)
  {
    CallStaysIff(c, Write(addr, reg, Zeros(127)), beyond);
  }

  /** A read of 129 bytes is refused on an idle bus; on a done bus it copies from behind the receive buffer. */
  lemma LongReadOverruns(c: Core, addr: bv16, reg: bv8, beyond: Beyond)
    requires Sound(c)
    ensures var r := Read(addr, reg, 129);
      && CallStays(c.(busState := BusIdle), r, beyond)
      && Called(c.(busState := BusIdle), r, beyond).error == ErrOverflow
      && CopiedOut(c.(busState := Done), r) == BUF_SIZE + 1
      && (c.busState == Done ==> !CallStays(c, r, beyond))
  {
  }

  /** Stopping and resuming at any time keep every index in its buffer. */
  lemma StopKeepsSound(c: Core)
    requires Sound(c)
    ensures Sound(Stopped(c)) && Sound(Resumed(c))
  {
  }

  function Run(c: Core, slave: Slave, ticks: nat): (r: Core)
    requires Sound(c)
    ensures Sound(r)
  {
    if ticks == 0 then c
    else TickKeepsSound(Run(c, slave, ticks - 1), slave); Tick(Run(c, slave, ticks - 1), slave)
  }

  /** A stopped bus stays stopped until it is resumed, whatever a caller asks meanwhile. */
  lemma {:induction false} StoppedStays(c: Core, slave: Slave, ticks: nat, r: Request, beyond: Beyond)
    requires Sound(c) && c.busState == BusForceStop
    ensures var d := Run(c, slave, ticks); d.busState == BusForceStop && d.error == c.error && Called(d, r, beyond) == d
  {
    if ticks > 0 {
      StoppedStays(c, slave, ticks - 1, r, beyond);
    }
  }
}
