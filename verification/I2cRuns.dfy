/** Whole transactions of the I2C master, decoded from the lines. */
module I2cRuns {
  import opened Common
  import opened I2cBus
  import opened I2cMarks
  import opened I2cSw

  lemma {:induction false} RunAdds(c: Core, slave: Slave, a: nat, b: nat)
    requires Sound(c)
    ensures Run(Run(c, slave, a), slave, b) == Run(c, slave, a + b)
  {
    hide Tick;
    if b > 0 {
      RunAdds(c, slave, a, b - 1);
      assert a + b - 1 == a + (b - 1);
    }
  }

  /** The end mark of the byte being handled. */
  predicate Final(c: Core)
    requires SoundBuffers(c.shared)
  {
    if c.job.ptrTx < BUF_SIZE then c.shared.seqEnding[c.job.ptrTx] else true
  }

  /** SCK is low between two bytes and everything before has been decoded. */
  predicate BetweenBytes(c: Core, events: seq<Event>) {
    && !c.pins.sck && c.clkToggles == 0 && c.statePrev == c.busState
    && var m := Decode(c.pins.trace);
       m.events == events && m.bits == [] && !m.prev.sck && m.high == None
  }

  // ---- a byte sent --------------------------------------------------------------------------

  /** Line levels while byte `b` is sent starting at the e-th fall of SCK. */
  function SentWord(b: bv8, slave: Slave, e: nat): (w: seq<bool>)
    ensures |w| == 9
  {
    seq(9, i requires 0 <= i < 9 => (if i < 8 then Bit(b, i) else true) && slave(e + i))
  }

  predicate MidSend(c: Core, d: Core, slave: Slave, events: seq<Event>, t: nat)
    requires Sound(c) && c.job.ptrTx < BUF_SIZE && t < 18
  {
    var w := SentWord(c.job.tx[c.job.ptrTx], slave, c.pins.falls);
    && d == c.(pins := d.pins, clkToggles := t, seqMsgFinal := d.seqMsgFinal)
    && d.pins.falls == c.pins.falls + (if t == 0 then 0 else (t - 1) / 2)
    && d.pins.sck == (t != 0 && t % 2 == 0)
    && (t % 2 == 1 ==> d.pins.Line(slave) == w[t / 2])
    && (t == 17 ==> d.pins.sda)
    && Shows(Decode(d.pins.trace), events, w, t)
  }

  lemma SendTick(c: Core, d: Core, slave: Slave, events: seq<Event>, t: nat)
    requires Sound(c) && c.busState == DataSend && BetweenBytes(c, events)
    requires Sound(d) && t < 17 && MidSend(c, d, slave, events, t)
    ensures MidSend(c, Tick(d, slave), slave, events, t + 1)
  {
    hide Observe, Shows, Bit;
    var b := c.job.tx[c.job.ptrTx];
    var w := SentWord(b, slave, c.pins.falls);
    var k := t / 2;
    if t % 2 == 0 {
      LowHalf(d.pins, if k < 8 then Bit(b, k) else true, slave, events, w, k);
    } else {
      HighHalf(d.pins, slave, events, w, k);
    }
  }

  lemma {:induction false} SendTicks(c: Core, slave: Slave, events: seq<Event>, t: nat)
    requires Sound(c) && c.busState == DataSend && BetweenBytes(c, events) && t < 18
    ensures MidSend(c, Run(c, slave, t), slave, events, t)
  {
    if t == 0 {
      assert SentWord(c.job.tx[c.job.ptrTx], slave, c.pins.falls)[..0] == [];
    } else {
      hide Tick, MidSend;
      SendTicks(c, slave, events, t - 1);
      SendTick(c, Run(c, slave, t - 1), slave, events, t - 1);
    }
  }

  /** The last clock pulse of a sent byte reads the slave's acknowledge bit. */
  lemma SendAck(c: Core, d: Core, slave: Slave, events: seq<Event>)
    requires Sound(c) && c.busState == DataSend && BetweenBytes(c, events)
    requires Sound(d) && MidSend(c, d, slave, events, 17)
    ensures var a := Tick(d, slave);
      var w := SentWord(c.job.tx[c.job.ptrTx], slave, c.pins.falls);
      && a == c.(pins := a.pins, seqMsgFinal := Final(c), error := if w[8] then ErrAck else ErrNone,
                 busState := SequenceHandle, statePrev := SequenceHandle)
      && a.pins.sck && a.pins.falls == c.pins.falls + 8
      && Shows(Decode(a.pins.trace), events, w, 18)
  {
  }

  /** The state control moves to when a byte is over. */
  function Next(c: Core): Core
    requires SoundBuffers(c.shared)
  {
    var more := c.job.ptrTx + 1 < c.job.dataSize;
    var to := if c.error == ErrNone && more then (if Final(c) then StartRepeat else c.dataSeq) else StopCond;
    c.(seqMsgFinal := Final(c), busState := to, statePrev := to, clkToggles := 0,
       job := if c.error == ErrNone then c.job.(ptrTx := c.job.ptrTx + 1) else c.job)
  }

  lemma HandleTick(c: Core, slave: Slave, events: seq<Event>, w: seq<bool>)
    requires Sound(c) && c.busState == SequenceHandle
    requires |w| == 9 && c.pins.sck && Shows(Decode(c.pins.trace), events, w, 18)
    ensures var d := Tick(c, slave);
      && d == Next(c).(pins := d.pins) && d.pins.falls == c.pins.falls + 1
      && BetweenBytes(d, events + [Byte(ByteOf(w[..8]), !w[8])])
  {
    hide Observe, Shows;
    FrameEnds(c.pins, slave, events, w);
  }

  lemma RunThen(c: Core, slave: Slave, n: nat)
    requires Sound(c)
    ensures Run(c, slave, n + 1) == Tick(Run(c, slave, n), slave)
  {
  }

  /** Nineteen ticks send one byte and act on its acknowledge bit. */
  lemma SendByte(c: Core, slave: Slave, events: seq<Event>)
    requires Sound(c) && c.busState == DataSend && BetweenBytes(c, events)
    ensures var d := Run(c, slave, 19);
      var w := SentWord(c.job.tx[c.job.ptrTx], slave, c.pins.falls);
      && d == Next(c.(error := if w[8] then ErrAck else ErrNone)).(pins := d.pins)
      && d.pins.falls == c.pins.falls + 9
      && BetweenBytes(d, events + [Byte(ByteOf(w[..8]), !w[8])])
  {
    hide Tick, MidSend, BetweenBytes, SentWord;
    var w := SentWord(c.job.tx[c.job.ptrTx], slave, c.pins.falls);
    SendTicks(c, slave, events, 17);
    RunThen(c, slave, 17);
    RunThen(c, slave, 18);
    SendAck(c, Run(c, slave, 17), slave, events);
    HandleTick(Run(c, slave, 18), slave, events, w);
  }

  // ---- a byte received ----------------------------------------------------------------------

  /** Line levels while the slave drives eight bits; the master's ninth bit is low for ACK. */
  function HeardWord(last: bool, slave: Slave, e: nat): (w: seq<bool>)
    ensures |w| == 9
  {
    seq(9, i requires 0 <= i < 9 => (if i < 8 then true else last) && slave(e + i))
  }

  /** The receive accumulator after `k` data bits. */
  function Collected(w: seq<bool>, k: nat): bv8
    requires |w| == 9 && k <= 8
  {
    if k == 0 then 0 else WithBit(Collected(w, k - 1), w[k - 1], k - 1)
  }

  lemma CollectedIsByte(w: seq<bool>)
    requires |w| == 9
    ensures Collected(w, 8) == ByteOf(w[..8])
  {
    var a, b, c, d := w[0], w[1], w[2], w[3];
    assert Collected(w, 1) == if a then 0x80 else 0;
    assert Collected(w, 2) == Collected(w, 1) | if b then 0x40 else 0;
    assert Collected(w, 3) == Collected(w, 2) | if c then 0x20 else 0;
    assert Collected(w, 4) == Collected(w, 3) | if d then 0x10 else 0;
    assert Collected(w, 5) == Collected(w, 4) | if w[4] then 0x08 else 0;
    assert Collected(w, 6) == Collected(w, 5) | if w[5] then 0x04 else 0;
    assert Collected(w, 7) == Collected(w, 6) | if w[6] then 0x02 else 0;
    assert Collected(w, 8) == Collected(w, 7) | if w[7] then 0x01 else 0;
  }

  /** Ready to receive into a free cell, with an empty accumulator. */
  predicate Listening(c: Core) {
    Sound(c) && c.busState == DataRead && c.recvByte == 0
  }

  predicate MidRead(c: Core, d: Core, slave: Slave, events: seq<Event>, t: nat)
    requires Listening(c) && t < 18
  {
    var w := HeardWord(Final(c), slave, c.pins.falls);
    && d == c.(pins := d.pins, clkToggles := t, seqMsgFinal := d.seqMsgFinal, recvByte := Collected(w, t / 2))
    && d.pins.falls == c.pins.falls + (if t == 0 then 0 else (t - 1) / 2)
    && d.pins.sck == (t != 0 && t % 2 == 0)
    && (t % 2 == 1 ==> d.pins.Line(slave) == w[t / 2])
    && Shows(Decode(d.pins.trace), events, w, t)
  }

  lemma SampleStep(d: Core, slave: Slave, k: nat)
    requires k < 8 && d.clkToggles == 2 * k + 1
    ensures var p := d.pins.WriteSck(true, slave);
      ReadStep(d, slave) == d.(pins := p, recvByte := WithBit(d.recvByte, p.Line(slave), k))
  {
    hide WithBit, Pins.WriteSck, Pins.Line;
    assert d.clkToggles / 2 == k && d.clkToggles % 2 == 1;
  }

  /** A tick that raises SCK over a data bit. */
  lemma SampleTick(d: Core, slave: Slave, k: nat)
    requires Sound(d) && d.busState == DataRead && k < 8 && d.clkToggles == 2 * k + 1
    ensures var p := d.pins.WriteSck(true, slave);
      Tick(d, slave) == d.(pins := p, seqMsgFinal := Final(d), clkToggles := 2 * k + 2,
        recvByte := WithBit(d.recvByte, p.Line(slave), k))
  {
    hide ReadStep, WithBit, Pins.WriteSck, Pins.Line;
    SampleStep(Prepared(d), slave, k);
  }

  lemma ReadTickLow(c: Core, d: Core, slave: Slave, events: seq<Event>, k: nat)
    requires Listening(c) && BetweenBytes(c, events)
    requires Sound(d) && k <= 8 && MidRead(c, d, slave, events, 2 * k)
    ensures MidRead(c, Tick(d, slave), slave, events, 2 * k + 1)
  {
    hide Observe, Shows, Collected;
    LowHalf(d.pins, if k < 8 then true else Final(c), slave, events, HeardWord(Final(c), slave, c.pins.falls), k);
  }

  lemma ReadTickHigh(c: Core, d: Core, slave: Slave, events: seq<Event>, k: nat)
    requires Listening(c) && BetweenBytes(c, events)
    requires Sound(d) && k < 8 && MidRead(c, d, slave, events, 2 * k + 1)
    ensures MidRead(c, Tick(d, slave), slave, events, 2 * k + 2)
  {
    hide Observe, Shows, Tick, WithBit;
    SampleTick(d, slave, k);
    HighHalf(d.pins, slave, events, HeardWord(Final(c), slave, c.pins.falls), k);
    assert (2 * k + 2) / 2 == k + 1;
  }

  lemma ReadBegins(c: Core, slave: Slave, events: seq<Event>)
    requires Listening(c) && BetweenBytes(c, events)
    ensures MidRead(c, c, slave, events, 0)
  {
  }

  lemma {:induction false} ReadTicks(c: Core, slave: Slave, events: seq<Event>, t: nat)
    requires Listening(c) && BetweenBytes(c, events) && t < 18
    ensures MidRead(c, Run(c, slave, t), slave, events, t)
  {
    hide Tick, MidRead;
    if t == 0 {
      ReadBegins(c, slave, events);
    } else {
      ReadTicks(c, slave, events, t - 1);
      var d := Run(c, slave, t - 1);
      if t % 2 == 1 {
        ReadTickLow(c, d, slave, events, t / 2);
      } else {
        ReadTickHigh(c, d, slave, events, t / 2 - 1);
      }
    }
  }

  /** The state once a received byte is stored. */
  function Stored(c: Core, b: bv8): Core
    requires Listening(c)
  {
    c.(job := c.job.(rx := c.job.rx[c.job.ptrRx := b], ptrRx := c.job.ptrRx + 1))
  }

  lemma ReadAck(c: Core, d: Core, slave: Slave, events: seq<Event>)
    requires Listening(c) && BetweenBytes(c, events)
    requires Sound(d) && MidRead(c, d, slave, events, 17)
    ensures var a := Tick(d, slave);
      var w := HeardWord(Final(c), slave, c.pins.falls);
      && a == Stored(c, ByteOf(w[..8])).(pins := a.pins, seqMsgFinal := Final(c),
                busState := SequenceHandle, statePrev := SequenceHandle)
      && a.pins.sck && a.pins.falls == c.pins.falls + 8
      && Shows(Decode(a.pins.trace), events, w, 18)
  {
    hide Observe, Shows, Collected;
    var w := HeardWord(Final(c), slave, c.pins.falls);
    HighHalf(d.pins, slave, events, w, 8);
    CollectedIsByte(w);
  }

  /** Nineteen ticks receive one byte, store it and answer it; the accumulator is empty again. */
  lemma ReadByte(c: Core, slave: Slave, events: seq<Event>)
    requires Listening(c) && BetweenBytes(c, events)
    ensures var d := Run(c, slave, 19);
      var w := HeardWord(Final(c), slave, c.pins.falls);
      && d == Next(Stored(c, ByteOf(w[..8]))).(pins := d.pins)
      && d.pins.falls == c.pins.falls + 9
      && BetweenBytes(d, events + [Byte(ByteOf(w[..8]), !w[8])])
  {
    hide Tick, MidRead, BetweenBytes, HeardWord;
    var w := HeardWord(Final(c), slave, c.pins.falls);
    ReadTicks(c, slave, events, 17);
    RunThen(c, slave, 17);
    RunThen(c, slave, 18);
    ReadAck(c, Run(c, slave, 17), slave, events);
    HandleTick(Run(c, slave, 18), slave, events, w);
  }

  // ---- conditions ---------------------------------------------------------------------------

  /** Both lines are high and every earlier transaction has ended. */
  predicate BusFree(c: Core, events: seq<Event>) {
    && c.pins.sda && c.pins.sck
    && Decode(c.pins.trace) == Monitor(Sample(true, true), None, [], events)
  }

  lemma StartTicks(c: Core, slave: Slave, events: seq<Event>)
    requires Sound(c) && c.busState == StartCond && c.clkToggles == 0
    requires slave(c.pins.falls)
    requires BusFree(c, events) || BetweenBytes(c, events)
    ensures var d := Run(c, slave, 3);
      && d == c.(pins := d.pins, seqMsgFinal := Final(c), busState := DataSend, statePrev := DataSend,
                dataSeq := if c.job.tx[c.job.ptrTx] & 1 != 0 then DataRead else DataSend)
      && d.pins.falls == c.pins.falls + 1
      && BetweenBytes(d, events + [Start])
  {
    var c1, c2 := Run(c, slave, 1), Run(c, slave, 2);
    RunThen(c, slave, 0);
    RunThen(c, slave, 1);
    RunThen(c, slave, 2);
    StartRise(c, slave, events);
    StartFall(c1, slave, events);
    StartClock(c2, slave, events);
  }

  lemma StartRise(c: Core, slave: Slave, events: seq<Event>)
    requires Sound(c) && c.busState == StartCond && c.clkToggles == 0
    requires slave(c.pins.falls)
    requires BusFree(c, events) || BetweenBytes(c, events)
    ensures var d := Tick(c, slave);
      && d == c.(pins := d.pins, seqMsgFinal := Final(c), clkToggles := 1)
      && d.pins.sda && d.pins.sck && d.pins.falls == c.pins.falls
      && var m := Decode(d.pins.trace); m.events == events && m.bits == [] && m.prev == Sample(true, true)
  {
  }

  lemma StartFall(c: Core, slave: Slave, events: seq<Event>)
    requires Sound(c) && c.busState == StartCond && c.clkToggles == 1
    requires c.pins.sda && c.pins.sck && slave(c.pins.falls)
    requires var m := Decode(c.pins.trace); m.events == events && m.bits == [] && m.prev == Sample(true, true)
    ensures var d := Tick(c, slave);
      && d == c.(pins := d.pins, seqMsgFinal := Final(c), clkToggles := 0, busState := CmdSend, statePrev := CmdSend)
      && !d.pins.sda && d.pins.sck && d.pins.falls == c.pins.falls
      && Decode(d.pins.trace) == Monitor(Sample(false, true), None, [], events + [Start])
  {
  }

  /** The first half pulse of the address byte is played twice, because the change of state
      restarts the toggle count; the lines do not show it. */
  lemma StartClock(c: Core, slave: Slave, events: seq<Event>)
    requires Sound(c) && c.busState == CmdSend && c.clkToggles == 0 && c.pins.sck
    requires Decode(c.pins.trace) == Monitor(Sample(false, true), None, [], events + [Start])
    ensures var d := Tick(c, slave);
      && d == c.(pins := d.pins, seqMsgFinal := Final(c), busState := DataSend, statePrev := DataSend,
                dataSeq := if c.job.tx[c.job.ptrTx] & 1 != 0 then DataRead else DataSend)
      && d.pins.falls == c.pins.falls + 1 && BetweenBytes(d, events + [Start])
  {
  }

  /** Two ticks end the transaction; the received bytes are handed over on the second. */
  lemma StopTicks(c: Core, slave: Slave, events: seq<Event>)
    requires Sound(c) && c.busState == StopCond && BetweenBytes(c, events) && slave(c.pins.falls)
    ensures Run(c, slave, 1).busState == StopCond
    ensures var d := Run(c, slave, 2);
      && d.busState == Done && d.error == c.error && d.shared.dataRx == c.job.rx && d.recvByte == c.recvByte
      && d.pins.falls == c.pins.falls && BusFree(d, events + [Stop])
  {
    RunThen(c, slave, 0);
    RunThen(c, slave, 1);
    var d := Tick(c, slave);
    assert d == c.(pins := d.pins, clkToggles := 1, seqMsgFinal := Final(c));
    assert Decode(d.pins.trace) == Monitor(Sample(false, true), Some(false), [], events);
  }
}
