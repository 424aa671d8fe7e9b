/** The driver as it is written: fixed buffers and variables changed in place, one timer tick at a time. */
module I2cMaster {
  import opened I2cBus
  import opened I2cMarks
  import opened I2cSw

  /** What the transmit buffer must hold, byte by byte. */
  lemma WireIs(r: Request, bytes: seq<bv8>)
    requires CellsUsed(r) <= BUF_SIZE == |bytes| && bytes[0] == AddressByte(r.addr, 0) && bytes[1] == r.reg
    requires r.Read? ==> bytes[2] == AddressByte(r.addr, 1) && forall i :: 3 <= i < BUF_SIZE ==> bytes[i] == 0
    requires r.Write? ==> bytes[2..2 + |r.data|] == r.data && forall i :: 2 + |r.data| <= i < BUF_SIZE ==> bytes[i] == 0
    ensures bytes == Wire(r)
  {
    hide AddressByte;
  }

  class Master {
    // Module variables.
    const dataTx: array<bv8>
    const dataRx: array<bv8>
    var commSeqSize: nat
    var rxSize: nat
    const seqEnding: array<bv32>
    var busState: BusState
    var error: Err

    /** The results of shifts that C leaves open. */
    const beyond: Beyond

    // Static locals of the timer routine.
    var clkToggles: nat
    var statePrev: BusState
    var dataSeq: BusState
    const tx: array<bv8>
    const rx: array<bv8>
    var ptrTx: nat
    var ptrRx: nat
    var dataSize: nat
    var recvByte: bv8
    var seqMsgFinal: bool

    // The pins, with the levels the lines have had.
    var pins: Pins

    ghost function Buffered(): set<object> {
      {dataTx as object, dataRx as object, seqEnding as object, tx as object, rx as object}
    }

    ghost predicate Valid()
      reads this, Buffered()
    {
      && dataTx != dataRx && dataTx != tx && dataTx != rx && dataRx != tx && dataRx != rx && tx != rx
      && seqEnding as object != dataTx as object && seqEnding as object != dataRx as object
      && seqEnding as object != tx as object && seqEnding as object != rx as object
      && seqEnding.Length == SEPARATORS && Sound(State())
    }

    /** The value the proofs about runs speak of. */
    ghost function State(): Core
      reads this, Buffered()
    {
      Core(Buffers(dataTx[..], dataRx[..], commSeqSize, rxSize, MarkBits(seqEnding[..], beyond)), busState, error,
           clkToggles, statePrev, dataSeq, Job(tx[..], rx[..], ptrTx, ptrRx, dataSize),
           recvByte, seqMsgFinal, pins)
    }

    constructor (beyond: Beyond)
      ensures Valid() && fresh(Buffered())
      ensures busState == statePrev == BusIdle && recvByte == 0 && pins == Pins(true, true, 0, Quiet)
    {
      this.beyond := beyond;
      dataTx := new bv8[BUF_SIZE](i => 0);
      dataRx := new bv8[BUF_SIZE](i => 0);
      seqEnding := new bv32[SEPARATORS](i => 0);
      tx := new bv8[BUF_SIZE](i => 0);
      rx := new bv8[BUF_SIZE](i => 0);
      commSeqSize, rxSize, busState, error := 0, 0, BusIdle, ErrNone;
      clkToggles, statePrev, dataSeq := 0, BusIdle, DataSend;
      ptrTx, ptrRx, dataSize, recvByte, seqMsgFinal := 0, 0, 0, 0, false;
      pins := Pins(true, true, 0, Quiet);
    }

    method SetSda(level: bool, slave: Slave)
      modifies this`pins
      ensures pins == old(pins).WriteSda(level, slave)
    {
      pins := pins.WriteSda(level, slave);
    }

    method SetSck(level: bool, slave: Slave)
      modifies this`pins
      ensures pins == old(pins).WriteSck(level, slave)
    {
      pins := pins.WriteSck(level, slave);
    }

    /** `i2c_execute_write`. */
    method ExecuteWrite(data: bv8, slave: Slave) returns (ended: bool)
      requires clkToggles < 18
      modifies this`pins, this`error
      ensures State() == WriteStep(old(State()), data, slave)
      ensures ended == (clkToggles == 17)
    {
      var clkEven := clkToggles % 2 == 0;
      var dataBit := clkToggles / 2;
      SetSck(!clkEven, slave);
      if clkEven {
        if dataBit < 8 {
          SetSda(Bit(data, dataBit), slave);
        } else {
          SetSda(true, slave);
        }
      } else if dataBit >= 8 {
        error := if pins.Line(slave) then ErrAck else ErrNone;
      }
      ended := clkToggles == 17;
    }

    /** `i2c_execute_read`. */
    method ExecuteRead(slave: Slave) returns (ended: bool)
      requires clkToggles < 18
      modifies this`pins, this`recvByte
      ensures State() == ReadStep(old(State()), slave)
      ensures ended == (clkToggles == 17)
    {
      var clkEven := clkToggles % 2 == 0;
      var dataBit := clkToggles / 2;
      SetSck(!clkEven, slave);
      if clkEven {
        if dataBit < 8 {
          SetSda(true, slave);
        } else {
          SetSda(seqMsgFinal, slave);
        }
      } else if dataBit < 8 {
        recvByte := WithBit(recvByte, pins.Line(slave), dataBit);
      }
      ended := clkToggles == 17;
    }

    method SendTick(slave: Slave)
      requires Valid() && clkToggles < 18 && ptrTx < BUF_SIZE
      modifies this
      ensures State() == DataSendStep(old(State()), slave)
    {
      hide MarkBits, WriteStep, Bit, Pins.WriteSda, Pins.WriteSck, Zeros;
      var ended := ExecuteWrite(tx[ptrTx], slave);
      if ended {
        busState := SequenceHandle;
      }
      clkToggles := clkToggles + 1;
    }

    method ReadTick(slave: Slave)
      requires Valid() && clkToggles < 18 && ptrRx < BUF_SIZE
      modifies this, rx
      ensures State() == DataReadStep(old(State()), slave)
    {
      hide MarkBits, ReadStep, WithBit, Pins.WriteSda, Pins.WriteSck, Zeros;
      var ended := ExecuteRead(slave);
      if ended {
        rx[ptrRx] := recvByte;
        assert rx[..] == old(rx[..])[ptrRx := recvByte];
        assert tx[..] == old(tx[..]) && dataTx[..] == old(dataTx[..]) && dataRx[..] == old(dataRx[..]);
        assert seqEnding[..] == old(seqEnding[..]);
        ptrRx := ptrRx + 1;
        recvByte := 0;
        busState := SequenceHandle;
      }
      clkToggles := clkToggles + 1;
    }

    method PrepareMessage(slave: Slave)
      requires Valid() && busState == MsgPrepare
      modifies this, tx, rx
      ensures State() == Act(old(State()), slave)
    {
      hide MarkBits, DataSendStep, DataReadStep, Pins.WriteSda, Pins.WriteSck;
      ghost var n := commSeqSize;
      forall i | 0 <= i < BUF_SIZE { tx[i] := if i < commSeqSize then dataTx[i] else 0; }
      forall i | 0 <= i < BUF_SIZE { rx[i] := 0; }
      ptrTx, ptrRx, dataSize := 0, 0, commSeqSize;
      busState := StartCond;
      assert tx[..] == old(dataTx[..])[..n] + Zeros(BUF_SIZE - n);
      assert rx[..] == Zeros(BUF_SIZE);
      assert dataTx[..] == old(dataTx[..]) && dataRx[..] == old(dataRx[..]) && seqEnding[..] == old(seqEnding[..]);
    }

    method HandleSequence(slave: Slave)
      requires Valid() && busState == SequenceHandle
      modifies this
      ensures State() == Act(old(State()), slave)
    {
      hide MarkBits, DataSendStep, DataReadStep, Pins.WriteSda, Pins.WriteSck, Zeros;
      SetSck(false, slave);
      SetSda(false, slave);
      busState := StopCond;
      if error == ErrNone {
        ptrTx := ptrTx + 1;
        if ptrTx < dataSize {
          busState := if seqMsgFinal then StartRepeat else dataSeq;
        }
      }
    }

    method Conclude(slave: Slave)
      requires Valid() && busState == StopCond
      modifies this, dataRx
      ensures State() == Act(old(State()), slave)
    {
      hide MarkBits, DataSendStep, DataReadStep, Pins.WriteSda, Pins.WriteSck, Zeros;
      if clkToggles == 0 {
        SetSda(false, slave);
        SetSck(true, slave);
      } else {
        SetSda(true, slave);
        SetSck(true, slave);
        rxSize := ptrRx;
        forall i | 0 <= i < BUF_SIZE { dataRx[i] := rx[i]; }
        assert dataRx[..] == rx[..] == old(rx[..]);
        assert tx[..] == old(tx[..]) && dataTx[..] == old(dataTx[..]) && seqEnding[..] == old(seqEnding[..]);
        busState := Done;
      }
      clkToggles := clkToggles + 1;
    }

    method Begin(slave: Slave)
      requires Valid() && busState == StartCond
      modifies this
      ensures State() == Act(old(State()), slave)
    {
      hide MarkBits, DataSendStep, DataReadStep, Pins.WriteSda, Pins.WriteSck, Zeros;
      if clkToggles == 0 {
        SetSda(true, slave);
        SetSck(true, slave);
      } else {
        SetSda(false, slave);
        busState := CmdSend;
      }
      clkToggles := clkToggles + 1;
    }

    method Command(slave: Slave)
      requires Valid() && busState == CmdSend
      modifies this
      ensures State() == Act(old(State()), slave)
    {
      hide MarkBits, WriteStep, Bit, DataReadStep, Pins.WriteSda, Pins.WriteSck, Zeros;
      dataSeq := if tx[ptrTx] & 1 != 0 then DataRead else DataSend;
      busState := DataSend;
      var ended := ExecuteWrite(tx[ptrTx], slave);
      if ended {
        busState := SequenceHandle;
      }
      clkToggles := clkToggles + 1;
    }

    /** The switch over the bus state. */
    method Switch(slave: Slave)
      requires Valid()
      modifies this, tx, rx, dataRx
      ensures State() == Act(old(State()), slave)
    {
      hide Bit, WithBit, Zeros, WriteStep, ReadStep;
      match busState {
        case BusIdle =>
          SetSda(true, slave);
          SetSck(true, slave);
        case MsgPrepare =>
          PrepareMessage(slave);
        case StartRepeat =>
          SetSda(false, slave);
          SetSck(false, slave);
          busState := StartCond;
        case StartCond =>
          Begin(slave);
        case CmdSend =>
          Command(slave);
        case DataSend =>
          SendTick(slave);
        case DataRead =>
          ReadTick(slave);
        case SequenceHandle =>
          HandleSequence(slave);
        case StopCond =>
          Conclude(slave);
        case Done =>
        case BusForceStop =>
      }
    }

    /** The end mark of the current byte. */
    method LookUpMark()
      requires Valid()
      modifies this`seqMsgFinal
      ensures State() == Prepared(old(State()))
    {
      hide Zeros, MarkedAt, SoundBuffers, SoundJob, InFrame, OffBus;
      seqMsgFinal := if ptrTx < BUF_SIZE then MarkedAt(seqEnding[..], ptrTx, beyond) else true;
      assert ptrTx < BUF_SIZE ==> seqMsgFinal == MarkBits(seqEnding[..], beyond)[ptrTx];
    }

    method Settle()
      modifies this`statePrev, this`clkToggles
      ensures State() == Settled(old(State()))
    {
      hide MarkBits;
      if statePrev != busState {
        statePrev := busState;
        clkToggles := 0;
      }
    }

    /** `i2c_sw_bus_timeproc`: one call is one step of the specified run. */
    method TimeProc(slave: Slave)
      requires Valid()
      modifies this, tx, rx, dataRx
      ensures Valid() && State() == Tick(old(State()), slave)
    {
      hide Act, Settled, MarkBits, Sound, Prepared;
      ghost var c := State();
      TickKeepsSound(c, slave);
      assert Sound(Prepared(c)) by { PreparedKeepsSound(c); }
      LookUpMark();
      Switch(slave);
      Settle();
    }

    /** `i2c_sw_flush`. */
    method Flush()
      requires Valid()
      modifies this, dataTx, dataRx, seqEnding
      ensures State() == old(State()).(error := ErrNone,
        shared := Buffers(Zeros(BUF_SIZE), Zeros(BUF_SIZE), 0, 0, Unmarked()))
    {
      forall i | 0 <= i < BUF_SIZE { dataTx[i] := 0; }
      forall i | 0 <= i < BUF_SIZE { dataRx[i] := 0; }
      forall i | 0 <= i < SEPARATORS { seqEnding[i] := 0; }
      commSeqSize, rxSize, error := 0, 0, ErrNone;
      assert dataTx[..] == Zeros(BUF_SIZE) && dataRx[..] == Zeros(BUF_SIZE);
      assert MarkBits(seqEnding[..], beyond) == Unmarked() by { NoMarks(seqEnding[..], beyond); }
      assert tx[..] == old(tx[..]) && rx[..] == old(rx[..]);
    }

    /** `i2c_sw_rst_or_stop_mark_add`: the last byte so far is marked, with every byte its shift meets. */
    method MarkAdd(dataSize: nat)
      requires seqEnding.Length == SEPARATORS && 0 < dataSize <= BUF_SIZE
      modifies seqEnding
      ensures MarkBits(seqEnding[..], beyond) == Marking(old(MarkBits(seqEnding[..], beyond)), dataSize - 1, beyond)
    {
      hide MarkBits, OneShifted, With, Marking;
      var seqEndPos := dataSize - 1;
      ghost var words := seqEnding[..];
      seqEnding[seqEndPos / 32] := With(seqEnding[seqEndPos / 32], OneShifted(seqEndPos, beyond));
      MarkSets(words, seqEndPos, beyond);
      assert seqEnding[..] == words[seqEndPos / 32 := With(words[seqEndPos / 32], OneShifted(seqEndPos, beyond))];
    }

    /** The bytes and end marks of a request, laid into flushed buffers. */
    method Fill(r: Request)
      requires Valid() && r.Length() <= BUF_SIZE && commSeqSize == 0
      requires dataTx[..] == Zeros(BUF_SIZE) && MarkBits(seqEnding[..], beyond) == Unmarked()
      modifies this`commSeqSize, dataTx, seqEnding
      ensures dataTx[..] == Wire(r) && commSeqSize == r.Length()
      ensures MarkBits(seqEnding[..], beyond) == MarksLeft(r, beyond)
    {
      hide AddressByte, MarkBits, Sound, Wire, Unmarked, Marking;
      assert dataTx.Length == BUF_SIZE by { assert |dataTx[..]| == BUF_SIZE; }
      dataTx[0] := AddressByte(r.addr, 0);
      dataTx[1] := r.reg;
      commSeqSize := commSeqSize + 2;
      if r.Read? {
        MarkAdd(commSeqSize);
        dataTx[2] := AddressByte(r.addr, 1);
        commSeqSize := commSeqSize + 1;
      } else {
        forall i | 0 <= i < |r.data| { dataTx[commSeqSize + i] := r.data[i]; }
      }
      commSeqSize := commSeqSize + r.Size();
      MarkAdd(commSeqSize);
      WireIs(r, dataTx[..]);
    }

    /** A request accepted on an idle bus. */
    method Compose(r: Request)
      requires Valid() && r.Length() <= BUF_SIZE && busState == BusIdle
      modifies this, dataTx, dataRx, seqEnding
      ensures State() == SubmitMarked(old(State()), r, MarksLeft(r, beyond))
    {
      hide Wire, MarksLeft, MarkBits;
      Flush();
      Fill(r);
      assert dataRx[..] == Zeros(BUF_SIZE) && tx[..] == old(tx[..]) && rx[..] == old(rx[..]);
      busState := MsgPrepare;
    }

    /** `i2c_sw_exec` without the copy out, on exactly the requests that stay in the buffers. A size of 128 or
        more is refused as an overflow. */
    method Exec(r: Request) returns (finished: bool)
      requires Valid() && (busState != BusIdle || r.Length() <= BUF_SIZE || r.Size() >= BUF_SIZE)
      modifies this, dataTx, dataRx, seqEnding
      ensures Valid() && State() == Called(old(State()), r, beyond)
      ensures finished == (error != ErrNone || old(busState) == Done)
    {
      hide Wire, MarksLeft, Zeros, MarkBits;
      var curr := busState;
      ghost var c := State();
      if curr == BusIdle {
        if r.Size() + 1 <= BUF_SIZE {
          Compose(r);
        } else {
          error := ErrOverflow;
        }
      } else if curr == Done {
        busState := BusIdle;
      }
      CalledIsSound(c, r, beyond);
      finished := error != ErrNone || curr == Done;
    }

    /** `i2c_error_get`. */
    method ErrorGet() returns (e: Err)
      ensures e == State().error
    {
      e := error;
    }

    /** `i2c_sw_bus_stop`. */
    method BusStop()
      requires Valid()
      modifies this`busState
      ensures Valid() && State() == Stopped(old(State()))
    {
      StopKeepsSound(State());
      busState := BusForceStop;
    }

    /** `i2c_sw_bus_resume`. */
    method BusResume()
      requires Valid()
      modifies this`busState
      ensures Valid() && State() == Resumed(old(State()))
    {
      StopKeepsSound(State());
      if busState == BusForceStop {
        busState := BusIdle;
      }
    }

    /** `i2c_sw_reg_write`. */
    method RegWrite(addr: bv16, reg: bv8, data: seq<bv8>) returns (finished: bool)
      requires Valid() && (busState != BusIdle || |data| != BUF_SIZE - 1)
      modifies this, dataTx, dataRx, seqEnding
      ensures Valid() && State() == Called(old(State()), Write(addr, reg, data), beyond)
      ensures finished == (error != ErrNone || old(busState) == Done)
    {
      finished := Exec(Write(addr, reg, data));
    }

    /** `i2c_sw_reg_read`: the received bytes are copied out when the transfer is found done. Demanded is that the call
        stays in the driver's buffers and the copy in the caller's. */
    method RegRead(addr: bv16, reg: bv8, data: array<bv8>, size: nat) returns (finished: bool)
      requires Valid() && (busState != BusIdle || size <= BUF_SIZE - 3 || size >= BUF_SIZE)
      requires busState == Done ==> size <= BUF_SIZE && size <= data.Length
      requires seqEnding as object != data as object
      requires data != dataTx && data != dataRx && data != tx && data != rx
      modifies this, dataTx, dataRx, seqEnding, data
      ensures Valid() && State() == Called(old(State()), Read(addr, reg, size), beyond)
      ensures finished == (error != ErrNone || old(busState) == Done)
      ensures if old(busState) == Done
        then data[..size] == old(dataRx[..size]) && data[size..] == old(data[size..]) else data[..] == old(data[..])
    {
      hide MarkBits, MarksLeft, Wire, Zeros, Called;
      if busState == Done {
        forall i | 0 <= i < size { data[i] := dataRx[i]; }
        assert dataTx[..] == old(dataTx[..]) && dataRx[..] == old(dataRx[..]) && seqEnding[..] == old(seqEnding[..]);
        assert tx[..] == old(tx[..]) && rx[..] == old(rx[..]);
      }
      finished := Exec(Read(addr, reg, size));
    }
  }
}
