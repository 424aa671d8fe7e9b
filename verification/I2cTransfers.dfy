/** Acknowledged and refused transfers, from the caller's request to Done. */
module I2cTransfers {
  import opened I2cBus
  import opened I2cMarks
  import opened I2cSw
  import opened I2cRuns

  /** The slave leaves SDA alone for the eight data bits of the frame that begins at fall `e`. */
  predicate Releases(slave: Slave, e: nat) {
    forall i: nat :: e <= i < e + 8 ==> slave(i)
  }

  /** What the bus should show for `bytes` sent from fall `e` on: up to the first refusal. */
  function Sent(bytes: seq<bv8>, slave: Slave, e: nat): seq<Event> {
    if bytes == [] then []
    else if slave(e + 8) then [Byte(bytes[0], false)]
    else [Byte(bytes[0], true)] + Sent(bytes[1..], slave, e + 9)
  }

  /** True when some byte is refused. */
  predicate Refused(bytes: seq<bv8>, slave: Slave, e: nat) {
    bytes != [] && (slave(e + 8) || Refused(bytes[1..], slave, e + 9))
  }

  /** What the bus should show for `k` bytes driven by the slave: all but the last acknowledged. */
  function Heard(slave: Slave, e: nat, k: nat): (h: seq<Event>)
    ensures |h| == k
    decreases k
  {
    if k == 0 then [] else [Byte(Driven(slave, e), k != 1)] + Heard(slave, e + 9, k - 1)
  }

  /** The byte a slave drives in the frame that begins at fall `e`. */
  function Driven(slave: Slave, e: nat): bv8 {
    ByteOf(seq(8, i requires 0 <= i < 8 => slave(e + i)))
  }

  function DrivenBytes(slave: Slave, e: nat, k: nat): (s: seq<bv8>)
    ensures |s| == k
  {
    seq(k, i requires 0 <= i < k => Driven(slave, e + 9 * i))
  }

  lemma SentWordIsByte(b: bv8, slave: Slave, e: nat)
    requires Releases(slave, e)
    ensures var w := SentWord(b, slave, e); ByteOf(w[..8]) == b && w[8] == slave(e + 8)
  {
  }

  lemma HeardWordIsDriven(last: bool, slave: Slave, e: nat)
    requires last ==> slave(e + 8)
    ensures var w := HeardWord(last, slave, e); ByteOf(w[..8]) == Driven(slave, e) && w[8] == last
  {
  }

  // ---- runs of bytes ------------------------------------------------------------------------

  /** Sending is about to begin at cursor `i` and nothing but the last byte may end the sequence. */
  predicate AboutToSend(c: Core, events: seq<Event>) {
    && Sound(c) && c.busState == DataSend && c.dataSeq == DataSend && BetweenBytes(c, events)
    && c.job.ptrTx < c.job.dataSize
    && forall i :: c.job.ptrTx <= i < c.job.dataSize - 1 ==> !c.shared.seqEnding[i]
  }

  /** Sending stops after the last byte or the first refusal. */
  lemma {:induction false} SendBytes(c: Core, slave: Slave, events: seq<Event>)
    requires AboutToSend(c, events)
    requires var bytes := c.job.tx[c.job.ptrTx..c.job.dataSize];
      forall k: nat :: k < |Sent(bytes, slave, c.pins.falls)| ==> Releases(slave, c.pins.falls + 9 * k)
    ensures var bytes := c.job.tx[c.job.ptrTx..c.job.dataSize];
      var sent := Sent(bytes, slave, c.pins.falls);
      var d := Run(c, slave, 19 * |sent|);
      && d.busState == StopCond && BetweenBytes(d, events + sent)
      && d.pins.falls == c.pins.falls + 9 * |sent|
      && d.error == (if Refused(bytes, slave, c.pins.falls) then ErrAck else ErrNone)
      && d.job.rx == c.job.rx && d.recvByte == c.recvByte
    decreases c.job.dataSize - c.job.ptrTx
  {
    hide Tick, Run, ByteOf, SentWord, Observe, Decode, Sent, Refused, Releases;
    var e := c.pins.falls;
    var bytes := c.job.tx[c.job.ptrTx..c.job.dataSize];
    var sent := Sent(bytes, slave, e);
    SentUnfolds(bytes, slave, e);
    assert Releases(slave, e + 9 * 0);
    SendByte(c, slave, events);
    SentWordIsByte(bytes[0], slave, e);
    var d := Run(c, slave, 19);
    if !slave(e + 8) && |bytes| > 1 {
      var first, rest := Byte(bytes[0], true), bytes[1..];
      assert d.job.tx[d.job.ptrTx..d.job.dataSize] == rest;
      var later := Sent(rest, slave, e + 9);
      forall k: nat | k < |later|
        ensures Releases(slave, e + 9 + 9 * k)
      {
        assert Releases(slave, e + 9 * (k + 1));
      }
      SendBytes(d, slave, events + [first]);
      RunAdds(c, slave, 19, 19 * |later|);
      assert events + [first] + later == events + sent;
    }
  }

  /** One byte of what should be shown. */
  lemma SentUnfolds(bytes: seq<bv8>, slave: Slave, e: nat)
    requires bytes != []
    ensures Sent(bytes, slave, e) == if slave(e + 8) || |bytes| == 1 then [Byte(bytes[0], !slave(e + 8))]
      else [Byte(bytes[0], true)] + Sent(bytes[1..], slave, e + 9)
    ensures Refused(bytes, slave, e) == (slave(e + 8) || (|bytes| > 1 && Refused(bytes[1..], slave, e + 9)))
  {
  }

  predicate AboutToHear(c: Core, events: seq<Event>) {
    && Listening(c) && c.dataSeq == DataRead && c.error == ErrNone && BetweenBytes(c, events)
    && c.job.ptrTx < c.job.dataSize
    && forall i :: c.job.ptrTx <= i < c.job.dataSize ==> c.shared.seqEnding[i] == (i == c.job.dataSize - 1)
  }

  /** Receiving fills consecutive cells with what the slave drove and refuses only the last byte. */
  lemma {:induction false} HearBytes(c: Core, slave: Slave, events: seq<Event>)
    requires AboutToHear(c, events)
    requires slave(c.pins.falls + 9 * (c.job.dataSize - c.job.ptrTx) - 1)
    ensures var k := c.job.dataSize - c.job.ptrTx;
      var d := Run(c, slave, 19 * k);
      && d.busState == StopCond && BetweenBytes(d, events + Heard(slave, c.pins.falls, k))
      && d.pins.falls == c.pins.falls + 9 * k && d.error == ErrNone && d.recvByte == 0
      && |d.job.rx| == BUF_SIZE && c.job.ptrRx + k <= BUF_SIZE
      && d.job.rx == c.job.rx[..c.job.ptrRx] + DrivenBytes(slave, c.pins.falls, k) + c.job.rx[c.job.ptrRx + k..]
    decreases c.job.dataSize - c.job.ptrTx
  {
    hide Tick, Run, HeardWord, Observe, Decode, Driven, DrivenBytes, Heard;
    var e := c.pins.falls;
    var k := c.job.dataSize - c.job.ptrTx;
    var p := c.job.ptrRx;
    ReadByte(c, slave, events);
    HeardWordIsDriven(k == 1, slave, e);
    assert Final(c) == (k == 1);
    var d := Run(c, slave, 19);
    var first := Byte(Driven(slave, e), k != 1);
    HeardFirst(slave, e, k);
    if k == 1 {
      OneDriven(slave, e);
    } else {
      HearBytes(d, slave, events + [first]);
      RunAdds(c, slave, 19, 19 * (k - 1));
      assert events + [first] + Heard(slave, e + 9, k - 1) == events + Heard(slave, e, k);
      RunGrows(c.job.rx, p, slave, e, k);
    }
  }

  lemma HeardFirst(slave: Slave, e: nat, k: nat)
    requires k > 0
    ensures Heard(slave, e, k) == [Byte(Driven(slave, e), k != 1)] + Heard(slave, e + 9, k - 1)
    ensures k == 1 ==> Heard(slave, e, k) == [Byte(Driven(slave, e), k != 1)]
  {
    hide Driven;
  }

  lemma OneDriven(slave: Slave, e: nat)
    ensures DrivenBytes(slave, e, 1) == [Driven(slave, e)]
  {
  }

  /** One stored byte and the run behind it make the longer run. */
  lemma RunGrows(rx: seq<bv8>, p: nat, slave: Slave, e: nat, k: nat)
    requires k > 1 && p + k <= |rx|
    ensures var one := rx[p := Driven(slave, e)];
      one[..p + 1] + DrivenBytes(slave, e + 9, k - 1) + one[p + 1 + (k - 1)..]
        == rx[..p] + DrivenBytes(slave, e, k) + rx[p + k..]
  {
  }

  // ---- opening a transfer -------------------------------------------------------------------

  /** Nothing is in progress: the caller may submit. */
  predicate Idle(c: Core, events: seq<Event>) {
    Sound(c) && c.busState == BusIdle && c.statePrev != StartCond && BusFree(c, events) && c.recvByte == 0
  }

  /** The bytes a request makes the master send before any repeated START. */
  function Opening(r: Request): seq<bv8> {
    match r
    case Write(addr, reg, data) => [AddressByte(addr, 0), reg] + data
    case Read(addr, reg, _) => [AddressByte(addr, 0), reg]
  }

  lemma SubmitKeepsSound(c: Core, r: Request, marks: seq<bool>, events: seq<Event>)
    requires Idle(c, events) && Ended(r, marks)
    ensures Sound(SubmitMarked(c, r, marks))
  {
  }

  /** Four ticks lead from the request to the first byte. */
  lemma Open(c: Core, r: Request, marks: seq<bool>, slave: Slave, events: seq<Event>)
    requires Idle(c, events) && Ended(r, marks) && slave(c.pins.falls) && Sound(SubmitMarked(c, r, marks))
    ensures var d := Run(SubmitMarked(c, r, marks), slave, 4);
      && d.busState == DataSend && d.statePrev == DataSend && d.error == ErrNone && d.recvByte == 0
      && d.job == Job(Wire(r), Zeros(BUF_SIZE), 0, 0, r.Length())
      && d.shared == SubmitMarked(c, r, marks).shared
      && d.dataSeq == (if AddressByte(r.addr, 0) & 1 != 0 then DataRead else DataSend)
      && d.pins.falls == c.pins.falls + 1 && BetweenBytes(d, events + [Start])
  {
    hide Tick, Run, Wire, AddressByte, Zeros;
    var s := SubmitMarked(c, r, marks);
    WirePadded(r);
    TakeMessage(s, slave);
    StartTicks(Run(s, slave, 1), slave, events);
    RunAdds(s, slave, 1, 3);
  }

  lemma WirePadded(r: Request)
    requires r.Length() <= BUF_SIZE
    ensures |Wire(r)| == BUF_SIZE && Wire(r)[0] == AddressByte(r.addr, 0)
    ensures Wire(r)[..r.Length()] + Zeros(BUF_SIZE - r.Length()) == Wire(r)
  {
    hide AddressByte;
  }

  /** The first tick takes the message over. */
  lemma TakeMessage(s: Core, slave: Slave)
    requires Sound(s) && s.busState == MsgPrepare && s.statePrev != StartCond
    ensures var t, n := Run(s, slave, 1), s.shared.commSeqSize;
      t == s.(job := Job(s.shared.dataTx[..n] + Zeros(BUF_SIZE - n), Zeros(BUF_SIZE), 0, 0, n), busState := StartCond,
              statePrev := StartCond, seqMsgFinal := t.seqMsgFinal, clkToggles := 0)
  {
    hide Zeros, DataSendStep, DataReadStep;
    RunThen(s, slave, 0);
    assert Run(s, slave, 1) == Tick(s, slave);
  }

  lemma AddressDirection(addr: bv16)
    ensures AddressByte(addr, 0) & 1 == 0
    ensures AddressByte(addr, 1) & 1 == 1
  {
  }

  // ---- whole transfers ----------------------------------------------------------------------

  /** The slave drives SDA only in acknowledge slots of the frames sent from fall `e` on, and has
      released the line when they are over. */
  predicate Courteous(bytes: seq<bv8>, slave: Slave, e: nat) {
    var n := |Sent(bytes, slave, e)|;
    (forall k: nat :: k < n ==> Releases(slave, e + 9 * k)) && slave(e + 9 * n)
  }

  lemma StopAfter(c: Core, slave: Slave, events: seq<Event>, n: nat)
    requires Sound(c) && slave(Run(c, slave, n).pins.falls)
    requires Run(c, slave, n).busState == StopCond && BetweenBytes(Run(c, slave, n), events)
    ensures Run(c, slave, n + 1).busState == StopCond
    ensures var d, s := Run(c, slave, n + 2), Run(c, slave, n);
      && d.busState == Done && d.error == s.error && d.shared.dataRx == s.job.rx && d.recvByte == s.recvByte
      && d.pins.falls == s.pins.falls && BusFree(d, events + [Stop])
  {
    hide Tick, Run;
    StopTicks(Run(c, slave, n), slave, events);
    RunAdds(c, slave, n, 1);
    RunAdds(c, slave, n, 2);
  }

  /** A write shows START, the address with the write bit, the register and the data, up to the
      first byte the slave refuses, then STOP; it takes 19 ticks a byte and six more. */
  lemma WriteTransfer(c: Core, r: Request, marks: seq<bool>, slave: Slave, events: seq<Event>)
    requires Idle(c, events) && r.Write? && Ended(r, marks) && Sound(SubmitMarked(c, r, marks))
    requires slave(c.pins.falls) && Courteous(Opening(r), slave, c.pins.falls + 1)
    ensures var s := SubmitMarked(c, r, marks);
      var sent := Sent(Opening(r), slave, c.pins.falls + 1);
      var d := Run(s, slave, 19 * |sent| + 6);
      && BusFree(d, events + [Start] + sent + [Stop])
      && d.busState == Done && Run(s, slave, 19 * |sent| + 5).busState == StopCond
      && d.recvByte == 0 && d.pins.falls == c.pins.falls + 1 + 9 * |sent|
      && d.error == if Refused(Opening(r), slave, c.pins.falls + 1) then ErrAck else ErrNone
  {
    hide Tick, Run, Observe, Decode, Releases;
    var s := SubmitMarked(c, r, marks);
    var f := c.pins.falls;
    Open(c, r, marks, slave, events);
    AddressDirection(r.addr);
    var o := Run(s, slave, 4);
    assert o.job.tx[o.job.ptrTx..o.job.dataSize] == Opening(r);
    var sent := Sent(Opening(r), slave, f + 1);
    SendBytes(o, slave, events + [Start]);
    RunAdds(s, slave, 4, 19 * |sent|);
    StopAfter(s, slave, events + [Start] + sent, 4 + 19 * |sent|);
  }

  /** A slave that acknowledges every byte: the transfer is complete after 19n + 6 ticks. */
  lemma {:induction false} AllAcknowledged(bytes: seq<bv8>, slave: Slave, e: nat)
    requires forall k: nat :: k < |bytes| ==> !slave(e + 9 * k + 8)
    ensures |Sent(bytes, slave, e)| == |bytes| && !Refused(bytes, slave, e)
    ensures forall k :: 0 <= k < |bytes| ==> Sent(bytes, slave, e)[k] == Byte(bytes[k], true)
  {
    if bytes != [] {
      assert !slave(e + 9 * 0 + 8);
      forall k: nat | k < |bytes| - 1
        ensures !slave(e + 9 + 9 * k + 8)
      {
        assert !slave(e + 9 * (k + 1) + 8);
      }
      AllAcknowledged(bytes[1..], slave, e + 9);
    }
  }

  /** A read shows START, the address with the write bit, the register, a repeated START, the
      address with the read bit and the bytes the slave drives, all but the last acknowledged,
      then STOP. The receive buffer holds those bytes. It takes 19 ticks a byte and ten more. */
  lemma ReadTransfer(c: Core, r: Request, marks: seq<bool>, slave: Slave, events: seq<Event>)
    requires Idle(c, events) && r.Read? && Ended(r, marks) && Sound(SubmitMarked(c, r, marks)) && r.size > 0
    requires var f := c.pins.falls;
      && slave(f) && Courteous(Opening(r), slave, f + 1) && !Refused(Opening(r), slave, f + 1)
      && Releases(slave, f + 20) && !slave(f + 28)
      && slave(f + 29 + 9 * r.size - 1) && slave(f + 29 + 9 * r.size)
    ensures var s := SubmitMarked(c, r, marks);
      var n := r.Length();
      var d := Run(s, slave, 19 * n + 10);
      && BusFree(d, events
          + [Start, Byte(AddressByte(r.addr, 0), true), Byte(r.reg, true)]
          + [Start, Byte(AddressByte(r.addr, 1), true)] + Heard(slave, c.pins.falls + 29, r.size) + [Stop])
      && d.busState == Done && Run(s, slave, 19 * n + 9).busState == StopCond && d.error == ErrNone
      && d.recvByte == 0 && d.pins.falls == c.pins.falls + 29 + 9 * r.size && |d.shared.dataRx| == BUF_SIZE
      && d.shared.dataRx[..r.size] == DrivenBytes(slave, c.pins.falls + 29, r.size)
  {
    hide Tick, Run, Observe, Decode, Releases, Driven, Wire;
    var s := SubmitMarked(c, r, marks);
    var f := c.pins.falls;
    var shown := events + [Start, Byte(AddressByte(r.addr, 0), true), Byte(r.reg, true)];
    SendAddress(c, r, marks, slave, events);
    var again := shown + [Start, Byte(AddressByte(r.addr, 1), true)];
    Readdress(Run(s, slave, 42), r, marks, slave, shown);
    RunAdds(s, slave, 42, 23);
    var h := Run(s, slave, 65);
    HearBytes(h, slave, again);
    RunAdds(s, slave, 65, 19 * r.size);
    StopAfter(s, slave, again + Heard(slave, f + 29, r.size), 65 + 19 * r.size);
    assert h.job.rx[..0] == [];
  }

  /** A read whose second address byte is refused, or that wants no bytes, stops after that byte. */
  lemma ReadEnds(c: Core, r: Request, marks: seq<bool>, slave: Slave, events: seq<Event>)
    requires Idle(c, events) && r.Read? && Ended(r, marks) && Sound(SubmitMarked(c, r, marks))
    requires var f := c.pins.falls;
      && slave(f) && Courteous(Opening(r), slave, f + 1) && !Refused(Opening(r), slave, f + 1)
      && Releases(slave, f + 20) && EndsAtAddress(r, slave, f + 20) && slave(f + 29)
    ensures var s := SubmitMarked(c, r, marks);
      var nack := slave(c.pins.falls + 28);
      && BusFree(Run(s, slave, 67), events
          + [Start, Byte(AddressByte(r.addr, 0), true), Byte(r.reg, true)]
          + [Start, Byte(AddressByte(r.addr, 1), !nack)] + [Stop])
      && Run(s, slave, 67).busState == Done && Run(s, slave, 66).busState == StopCond
      && Run(s, slave, 67).error == if nack then ErrAck else ErrNone
  {
    hide Tick, Run, Observe, Decode, Releases, Driven, Wire, AboutToHear;
    var s := SubmitMarked(c, r, marks);
    var shown := events + [Start, Byte(AddressByte(r.addr, 0), true), Byte(r.reg, true)];
    SendAddress(c, r, marks, slave, events);
    Readdress(Run(s, slave, 42), r, marks, slave, shown);
    RunAdds(s, slave, 42, 23);
    StopAfter(s, slave, shown + [Start, Byte(AddressByte(r.addr, 1), !slave(c.pins.falls + 28))], 65);
  }

  /** The first 42 ticks of a read: START and the two bytes that name the register. */
  lemma SendAddress(c: Core, r: Request, marks: seq<bool>, slave: Slave, events: seq<Event>)
    requires Idle(c, events) && r.Read? && Ended(r, marks) && Sound(SubmitMarked(c, r, marks))
    requires slave(c.pins.falls) && Courteous(Opening(r), slave, c.pins.falls + 1)
    requires !Refused(Opening(r), slave, c.pins.falls + 1)
    ensures var d := Run(SubmitMarked(c, r, marks), slave, 42);
      && d.busState == StartRepeat && d.error == ErrNone && d.recvByte == 0
      && d.job == Job(Wire(r), Zeros(BUF_SIZE), 2, 0, r.Length()) && d.shared == SubmitMarked(c, r, marks).shared
      && d.pins.falls == c.pins.falls + 19 && slave(c.pins.falls + 19)
      && BetweenBytes(d, events + [Start, Byte(AddressByte(r.addr, 0), true), Byte(r.reg, true)])
  {
    hide Tick, Run, Observe, Decode, ByteOf, SentWord;
    var s := SubmitMarked(c, r, marks);
    var e := c.pins.falls + 1;
    var bytes := Opening(r);
    assert bytes[1..] == [r.reg] && bytes[1..][1..] == [];
    assert !Refused(bytes[1..], slave, e + 9);
    assert Sent(bytes[1..], slave, e + 9) == [Byte(r.reg, true)];
    assert Sent(bytes, slave, e) == [Byte(bytes[0], true), Byte(r.reg, true)];
    assert Releases(slave, e + 9 * 0) && Releases(slave, e + 9 * 1);
    Open(c, r, marks, slave, events);
    AddressDirection(r.addr);
    var o := Run(s, slave, 4);
    SendByte(o, slave, events + [Start]);
    SentWordIsByte(bytes[0], slave, e);
    RunAdds(s, slave, 4, 19);
    var p := Run(s, slave, 23);
    var shown := events + [Start] + [Byte(bytes[0], true)];
    SendByte(p, slave, shown);
    SentWordIsByte(r.reg, slave, e + 9);
    RunAdds(s, slave, 23, 19);
    assert shown + [Byte(r.reg, true)] == events + [Start, Byte(bytes[0], true), Byte(r.reg, true)];
  }

  /** The next 23 ticks: the repeated START and the read address. */
  lemma Readdress(c: Core, r: Request, marks: seq<bool>, slave: Slave, events: seq<Event>)
    requires Sound(c) && c.busState == StartRepeat && c.recvByte == 0 && BetweenBytes(c, events)
    requires r.Read? && Ended(r, marks)
    requires c.job == Job(Wire(r), Zeros(BUF_SIZE), 2, 0, r.Length()) && c.shared.seqEnding == marks
    requires slave(c.pins.falls) && Releases(slave, c.pins.falls + 1)
    ensures var d := Run(c, slave, 23);
      var shown := events + [Start, Byte(AddressByte(r.addr, 1), !slave(c.pins.falls + 9))];
      && d.shared == c.shared && d.pins.falls == c.pins.falls + 10 && BetweenBytes(d, shown)
      && if EndsAtAddress(r, slave, c.pins.falls + 1)
         then d.busState == StopCond && d.error == (if slave(c.pins.falls + 9) then ErrAck else ErrNone)
         else AboutToHear(d, shown) && d.job == c.job.(ptrTx := 3)
  {
    hide Observe, Decode, ByteOf, SentWord, Tick, Run, Wire, AddressByte, Releases, AboutToHear, BetweenBytes;
    ReadAddressIsThird(r, marks);
    AddressDirection(r.addr);
    var t := Run(c, slave, 1);
    RepeatTick(c, slave, events);
    StartTicks(t, slave, events);
    RunAdds(c, slave, 1, 3);
    SendReadAddress(Run(c, slave, 4), r, marks, slave, events + [Start]);
    RunAdds(c, slave, 4, 19);
    var last := Byte(AddressByte(r.addr, 1), !slave(c.pins.falls + 9));
    assert events + [Start] + [last] == events + [Start, last];
  }

  lemma ReadAddressIsThird(r: Request, marks: seq<bool>)
    requires r.Read? && Ended(r, marks)
    ensures Wire(r)[2] == AddressByte(r.addr, 1)
  {
  }

  /** The read address is refused, or nothing is to be read. */
  predicate EndsAtAddress(r: Request, slave: Slave, e: nat) {
    slave(e + 8) || r.Size() == 0
  }

  lemma SendReadAddress(c: Core, r: Request, marks: seq<bool>, slave: Slave, events: seq<Event>)
    requires Sound(c) && c.busState == DataSend && c.dataSeq == DataRead && c.recvByte == 0 && BetweenBytes(c, events)
    requires r.Read? && Ended(r, marks)
    requires c.job == Job(Wire(r), Zeros(BUF_SIZE), 2, 0, r.Length()) && c.shared.seqEnding == marks
    requires Releases(slave, c.pins.falls)
    ensures var d := Run(c, slave, 19);
      var shown := events + [Byte(AddressByte(r.addr, 1), !slave(c.pins.falls + 8))];
      && d.shared == c.shared && d.pins.falls == c.pins.falls + 9 && BetweenBytes(d, shown)
      && if EndsAtAddress(r, slave, c.pins.falls)
         then d.busState == StopCond && d.error == (if slave(c.pins.falls + 8) then ErrAck else ErrNone)
         else AboutToHear(d, shown) && d.job == c.job.(ptrTx := 3)
  {
    hide Observe, Decode, ByteOf, SentWord, Tick, Run, Wire, AddressByte, Releases;
    ReadAddressIsThird(r, marks);
    SendByte(c, slave, events);
    SentWordIsByte(AddressByte(r.addr, 1), slave, c.pins.falls);
  }

  lemma RepeatTick(c: Core, slave: Slave, events: seq<Event>)
    requires Sound(c) && c.busState == StartRepeat && BetweenBytes(c, events)
    ensures var t := Run(c, slave, 1);
      && t == c.(pins := t.pins, busState := StartCond, statePrev := StartCond, seqMsgFinal := t.seqMsgFinal)
      && BetweenBytes(t, events) && t.pins.falls == c.pins.falls
  {
  }

  /** A read whose slave or register byte is refused stops at once and says so. */
  lemma ReadRefused(c: Core, r: Request, marks: seq<bool>, slave: Slave, events: seq<Event>)
    requires Idle(c, events) && r.Read? && Ended(r, marks) && Sound(SubmitMarked(c, r, marks))
    requires slave(c.pins.falls) && Courteous(Opening(r), slave, c.pins.falls + 1)
    requires Refused(Opening(r), slave, c.pins.falls + 1)
    ensures var s := SubmitMarked(c, r, marks);
      var sent := Sent(Opening(r), slave, c.pins.falls + 1);
      var d := Run(s, slave, 19 * |sent| + 6);
      && BusFree(d, events + [Start] + sent + [Stop])
      && d.busState == Done && Run(s, slave, 19 * |sent| + 5).busState == StopCond && d.error == ErrAck
  {
    hide Tick, Run, Observe, Decode, ByteOf, SentWord, AddressByte, Releases, BusFree, BetweenBytes;
    var s := SubmitMarked(c, r, marks);
    var e := c.pins.falls + 1;
    var bytes := Opening(r);
    var sent := Sent(bytes, slave, e);
    assert bytes[1..] == [r.reg] && bytes[1..][1..] == [];
    assert Releases(slave, e + 9 * 0);
    Open(c, r, marks, slave, events);
    AddressDirection(r.addr);
    var o := Run(s, slave, 4);
    SendByte(o, slave, events + [Start]);
    SentWordIsByte(bytes[0], slave, e);
    RunAdds(s, slave, 4, 19);
    if slave(e + 8) {
      assert sent == [Byte(bytes[0], false)];
      StopAfter(s, slave, events + [Start] + sent, 23);
    } else {
      var shown := events + [Start] + [Byte(bytes[0], true)];
      assert Refused(bytes[1..], slave, e + 9) && !Refused(bytes[1..][1..], slave, e + 18);
      assert Sent(bytes[1..], slave, e + 9) == [Byte(r.reg, false)];
      assert sent == [Byte(bytes[0], true), Byte(r.reg, false)];
      assert Releases(slave, e + 9 * 1);
      SendByte(Run(s, slave, 23), slave, shown);
      SentWordIsByte(r.reg, slave, e + 9);
      RunAdds(s, slave, 23, 19);
      assert shown + [Byte(r.reg, false)] == events + [Start] + sent;
      StopAfter(s, slave, events + [Start] + sent, 42);
    }
  }

  // ---- what a polling caller may see --------------------------------------------------------

  /** Equal but for the end mark looked up last. */
  predicate AlikeDone(c: Core, d: Core) {
    c.busState == Done && d == c.(seqMsgFinal := d.seqMsgFinal)
  }

  lemma {:induction false} DoneStays(c: Core, slave: Slave, n: nat, m: nat)
    requires Sound(c) && n <= m && Run(c, slave, n).busState == Done
    ensures AlikeDone(Run(c, slave, n), Run(c, slave, m))
    decreases m
  {
    hide Tick, Run, Sound;
    if n < m {
      DoneStays(c, slave, n, m - 1);
      DoneTick(Run(c, slave, n), Run(c, slave, m - 1), slave);
      RunThen(c, slave, m - 1);
    }
  }

  lemma DoneTick(c: Core, d: Core, slave: Slave)
    requires Sound(d) && AlikeDone(c, d)
    ensures AlikeDone(c, Tick(d, slave))
  {
  }

  /** The transfer is not done before tick `n` and is done from then on. */
  lemma DoneExactlyFrom(c: Core, slave: Slave, n: nat, m: nat)
    requires Sound(c) && Run(c, slave, n + 1).busState == Done && Run(c, slave, n).busState != Done
    ensures (Run(c, slave, m).busState == Done) == (m > n)
  {
    hide Tick, Run;
    if m > n {
      DoneStays(c, slave, n + 1, m);
    } else if Run(c, slave, m).busState == Done {
      DoneStays(c, slave, m, n);
    }
  }

  /** A refusal is never forgotten before the transfer ends. */
  predicate Failing(c: Core) {
    c.error != ErrNone && (c.busState == SequenceHandle || c.busState == StopCond || c.busState == Done)
  }

  lemma FailingStays(c: Core, slave: Slave)
    requires Sound(c) && (c.error == ErrNone || Failing(c))
    ensures var d := Tick(c, slave); Failing(d) || (c.error == ErrNone && d.error == ErrNone)
  {
    hide Bit, WithBit, Zeros, Pins.WriteSda, Pins.WriteSck, Pins.Line;
  }

  lemma {:induction false} ErrorsAccumulate(c: Core, slave: Slave, n: nat)
    requires Sound(c) && (c.error == ErrNone || Failing(c))
    ensures var d := Run(c, slave, n); Failing(d) || (c.error == ErrNone && d.error == ErrNone)
  {
    hide Tick;
    if n > 0 {
      ErrorsAccumulate(c, slave, n - 1);
      FailingStays(Run(c, slave, n - 1), slave);
    }
  }

  /** A transfer that ends without error never showed one to a caller that polled it. */
  lemma NoErrorOnTheWay(c: Core, slave: Slave, n: nat, m: nat)
    requires Sound(c) && c.error == ErrNone && m <= n && Run(c, slave, n).error == ErrNone
    ensures Run(c, slave, m).error == ErrNone
  {
    hide Tick, Run;
    ErrorsAccumulate(c, slave, m);
    ErrorsAccumulate(Run(c, slave, m), slave, n - m);
    RunAdds(c, slave, m, n - m);
  }

  /** A running transfer never looks idle. */
  predicate Busy(s: BusState) {
    !s.BusIdle? && !s.BusForceStop?
  }

  lemma BusyTick(c: Core, slave: Slave)
    requires Sound(c) && Busy(c.busState)
    ensures Busy(Tick(c, slave).busState)
  {
    hide Bit, WithBit, Zeros, Pins.WriteSda, Pins.WriteSck, Pins.Line;
  }

  lemma {:induction false} NeverIdle(c: Core, slave: Slave, n: nat)
    requires Sound(c) && Busy(c.busState)
    ensures Busy(Run(c, slave, n).busState)
  {
    hide Tick, Busy;
    if n > 0 {
      NeverIdle(c, slave, n - 1);
      BusyTick(Run(c, slave, n - 1), slave);
    }
  }

  /** What a poll finds `m` ticks into a transfer that ends well after `n + 1`. */
  lemma PollSees(c: Core, slave: Slave, n: nat, m: nat)
    requires Sound(c) && Busy(c.busState) && c.error == ErrNone
    requires Run(c, slave, n).busState != Done
    requires Run(c, slave, n + 1).busState == Done && Run(c, slave, n + 1).error == ErrNone
    ensures var d := Run(c, slave, m);
      && Busy(d.busState) && d.error == ErrNone && (d.busState == Done) == (m > n)
      && (m > n ==> AlikeDone(Run(c, slave, n + 1), d))
  {
    hide Tick, Run, Sound;
    NeverIdle(c, slave, m);
    DoneExactlyFrom(c, slave, n, m);
    if m > n {
      DoneStays(c, slave, n + 1, m);
    } else {
      NoErrorOnTheWay(c, slave, n + 1, m);
    }
  }
}
