/** Master, slave and checksum composed: what whole exchanges achieve. */
module ModbusExchange {
  import opened Common
  import opened Crc
  import opened Modbus
  import opened Octets

  /** The slave's buffer when `frame` has been received over whatever was there. */
  predicate Received(b: seq<bv8>, frame: seq<bv8>) {
    |frame| <= |b| && b[..|frame|] == frame
  }

  lemma SentIsHeeded(id: bv8, to: bv8, b: seq<bv8>, data: seq<bv8>)
    requires Received(b, WithCrc(data)) && |data| >= 2 && data[0] == to
    ensures Heeded(id, b, |WithCrc(data)|) <==> to == id || to == 0
  {
    hide Crc16;
    AppendedCrcVanishes(data);
    assert b[0] == b[..|data| + 2][0] == data[0];
  }

  lemma JudgedWhole(answer: seq<bv8>, code: bv8)
    requires 1 < |answer| <= 253
    ensures Judge(WithCrc(answer), code) == if answer[1] == code then Ok else ErrorFunction
  {
    hide Crc16;
    AppendedCrcVanishes(answer);
  }

  lemma ExceptionDiffers(f: bv8)
    requires f & 0x80 == 0
    ensures f | 0x80 != f
  {
  }

  lemma RequestFields(b: seq<bv8>, data: seq<bv8>, reg: U16, num: U16)
    requires |data| >= 6 && |data| + 2 <= |b| && b[..|data| + 2] == WithCrc(data)
    requires data[2] == Hi(reg) && data[3] == Lo(reg) && data[4] == Hi(num) && data[5] == Lo(num)
    ensures Addr(b) == reg && Quantity(b) == num
    ensures forall i :: 0 <= i < |data| ==> b[i] == data[i]
  {
    hide ToByte, FromByte, Crc16, Hi, Lo, Join;
    JoinSplit(reg);
    JoinSplit(num);
    forall i | 0 <= i < |data|
      ensures b[i] == data[i]
    {
      assert b[..|data| + 2][i] == data[i];
    }
  }

  // ---- reading ------------------------------------------------------------------------------

  /** Section 6.3 of the Modbus application protocol: a read of 1 to 125 registers by the slave's
      own address returns exactly their values when all are mapped, and an exception otherwise.
      The registers never change. */
  lemma ReadExchange(id: bv8, m: RegMap, bank: seq<U16>, b: seq<bv8>, reg: U16, num: U16)
    requires id != 0 && 1 <= num <= 125 && |b| == 256 && |bank| == m.count
    requires Received(b, WithCrc(ReadRequest(id, reg, num)))
    ensures InBuffer(m, b)
    ensures var o := Parse(id, m, b, 8, bank);
      && o.bank == bank
      && (Mapped(m, reg, num) ==>
            Judge(Reply(o), READ_HOLDING) == Ok
            && 3 <= |Reply(o)| <= 255 && 3 + 2 * (FromByte(Reply(o)[2]) / 2) <= |Reply(o)|
            && Carried(Reply(o)) == Served(m, bank, reg - m.start, num))
      && (!Mapped(m, reg, num) ==> Judge(Reply(o), READ_HOLDING) == ErrorFunction)
  {
    hide ToByte, FromByte, Crc16, Hi, Lo, Join, Low, High, WordBytes, WordsAt, Twice, Served;
    var data := ReadRequest(id, reg, num);
    RequestFields(b, data, reg, num);
    SentIsHeeded(id, id, b, data);
    var o := Parse(id, m, b, 8, bank);
    if Mapped(m, reg, num) {
      var vs := Served(m, bank, reg - m.start, num);
      var answer := [b[0], b[1], Twice(num)] + WordBytes(vs);
      JudgedWhole(answer, READ_HOLDING);
      TwiceHalves(num);
      assert Reply(o)[3..3 + 2 * num] == WordBytes(vs);
      WordsRoundTrip(Reply(o), 3, vs);
    } else {
      ExceptionDiffers(READ_HOLDING);
      JudgedWhole(Exception(b, ILLEGAL_ADDRESS), READ_HOLDING);
    }
  }

  // ---- writing ------------------------------------------------------------------------------

  /** What the write case does, once the fields of the request are known. */
  lemma WriteCase(m: RegMap, bank: seq<U16>, b: seq<bv8>, reg: U16, values: seq<U16>)
    requires InBuffer(m, b) && |bank| == m.count && b[1] == WRITE_MULTIPLE && 7 + 2 * |values| <= |b|
    requires Addr(b) == reg && Quantity(b) == |values| && WordsAt(b, 7, |values|) == values
    ensures var mapped := Mapped(m, reg, |values|);
      Execute(m, b, bank) == Outcome(
        if !mapped then Exception(b, ILLEGAL_ADDRESS)
        else if AllAccepted(m, reg - m.start, values) then b[..6] else Exception(b, ILLEGAL_VALUE),
        if mapped then Written(m, bank, reg - m.start, values) else bank)
  {
    hide Addr, Quantity, WordBytes, WordsAt, Twice, Written, Served, AllAccepted, Exception;
  }

  lemma WriteIsExecuted(to: bv8, m: RegMap, bank: seq<U16>, b: seq<bv8>, reg: U16, values: seq<U16>)
    requires 1 <= |values| <= 123 && |b| == 256 && |bank| == m.count
    requires Received(b, WithCrc(WriteRequest(to, reg, values)))
    ensures InBuffer(m, b) && b[0] == to && b[1] == WRITE_MULTIPLE
    ensures var mapped := Mapped(m, reg, |values|);
      Execute(m, b, bank) == Outcome(
        if !mapped then Exception(b, ILLEGAL_ADDRESS)
        else if AllAccepted(m, reg - m.start, values) then b[..6] else Exception(b, ILLEGAL_VALUE),
        if mapped then Written(m, bank, reg - m.start, values) else bank)
  {
    hide Crc16, Hi, Lo, Low, High, WordBytes, WordsAt, Twice, Written, Served, AllAccepted, Exception, Execute,
         Addr, Quantity, Mapped;
    var n := |values|;
    var data := WriteRequest(to, reg, values);
    RequestFields(b, data, reg, n);
    assert data[7..] == WordBytes(values);
    assert b[7..7 + 2 * n] == data[7..];
    WordsRoundTrip(b, 7, values);
    WriteCase(m, bank, b, reg, values);
  }

  /** Section 6.12: a write of 1 to 123 registers puts each accepted value in its register, in
      order, and touches no other. The master is told Ok exactly when all were mapped and accepted. */
  lemma WriteExchange(id: bv8, m: RegMap, bank: seq<U16>, b: seq<bv8>, reg: U16, values: seq<U16>)
    requires id != 0 && 1 <= |values| <= 123 && |b| == 256 && |bank| == m.count
    requires Received(b, WithCrc(WriteRequest(id, reg, values)))
    ensures InBuffer(m, b)
    ensures var o := Parse(id, m, b, 9 + 2 * |values|, bank);
      var mapped := Mapped(m, reg, |values|);
      && o.bank == (if mapped then Written(m, bank, reg - m.start, values) else bank)
      && Judge(Reply(o), WRITE_MULTIPLE)
        == if mapped && AllAccepted(m, reg - m.start, values) then Ok else ErrorFunction
  {
    hide Crc16, Hi, Lo, Join, Low, High, WordBytes, Twice, Written, Execute, Mapped, InBuffer;
    WriteIsExecuted(id, m, bank, b, reg, values);
    SentIsHeeded(id, id, b, WriteRequest(id, reg, values));
    ExceptionDiffers(WRITE_MULTIPLE);
    JudgedWhole(b[..6], WRITE_MULTIPLE);
    JudgedWhole(Exception(b, ILLEGAL_ADDRESS), WRITE_MULTIPLE);
    JudgedWhole(Exception(b, ILLEGAL_VALUE), WRITE_MULTIPLE);
  }

  /** A broadcast write is carried out and never answered. */
  lemma Broadcast(id: bv8, m: RegMap, bank: seq<U16>, b: seq<bv8>, reg: U16, values: seq<U16>)
    requires 1 <= |values| <= 123 && |b| == 256 && |bank| == m.count
    requires Received(b, WithCrc(WriteRequest(0, reg, values)))
    ensures InBuffer(m, b)
    ensures var o := Parse(id, m, b, 9 + 2 * |values|, bank);
      && Reply(o) == []
      && o.bank == if Mapped(m, reg, |values|) then Written(m, bank, reg - m.start, values) else bank
  {
    hide Crc16, Hi, Lo, Join, Low, High, WordBytes, Twice, Written, Execute, Mapped, InBuffer;
    WriteIsExecuted(0, m, bank, b, reg, values);
    SentIsHeeded(id, 0, b, WriteRequest(0, reg, values));
  }

  /** Frames for another slave are ignored, and the master times out. */
  lemma OtherSlave(id: bv8, to: bv8, m: RegMap, bank: seq<U16>, b: seq<bv8>, data: seq<bv8>, code: bv8)
    requires to != 0 && to != id && |data| >= 2 && data[0] == to
    requires Received(b, WithCrc(data)) && |bank| == m.count
    ensures !Heeded(id, b, |data| + 2)
    ensures Parse(id, m, b, |data| + 2, bank) == Outcome([], bank)
    ensures Judge(Reply(Parse(id, m, b, |data| + 2, bank)), code) == ErrorTimeout
  {
  }

  /** A broadcast read is answered with nothing and changes nothing, and since no checksum is appended one register more
      stays in the buffer. */
  lemma BroadcastRead(id: bv8, m: RegMap, bank: seq<U16>, b: seq<bv8>, reg: U16, num: U16)
    requires |b| == 256 && |bank| == m.count && Received(b, WithCrc(ReadRequest(0, reg, num)))
    ensures Heeded(id, b, 8) && (InBuffer(m, b) <==> (Mapped(m, reg, num) ==> num <= 126))
    ensures InBuffer(m, b) ==> Parse(id, m, b, 8, bank) == Outcome([], bank)
  {
    hide Crc16, Hi, Lo, Join, Low, High, WordBytes, Twice, Served;
    var data := ReadRequest(0, reg, num);
    RequestFields(b, data, reg, num);
    SentIsHeeded(id, 0, b, data);
  }

  // ---- answers that are refusals ---------------------------------------------------------------

  lemma RefusalCodes(f: bv8)
    ensures f == READ_HOLDING ==> f | 0x80 == 0x83
    ensures f == READ_INPUT ==> f | 0x80 == 0x84
    ensures f == WRITE_SINGLE ==> f | 0x80 == 0x86
    ensures f == WRITE_MULTIPLE ==> f | 0x80 == 0x90
  {
  }

  /** Section 7: a refusal repeats the function with its highest bit set and says why. Function 3, 4, 6 or 16 of
      registers that are not mapped is an illegal address, a refused value an illegal value, and any other function is
      illegal. */
  lemma Refusals(m: RegMap, b: seq<bv8>, bank: seq<U16>)
    requires InBuffer(m, b) && |bank| == m.count
    ensures var a := Execute(m, b, bank).answer;
      && (b[1] == 0x03 && !Mapped(m, Addr(b), Quantity(b)) ==> a == [b[0], 0x83, 2])
      && (b[1] == 0x04 && !Mapped(m, Addr(b), Quantity(b)) ==> a == [b[0], 0x84, 2])
      && (b[1] == 0x06 && !Mapped(m, Addr(b), 1) ==> a == [b[0], 0x86, 2])
      && (b[1] == 0x10 && !Mapped(m, Addr(b), Quantity(b)) ==> a == [b[0], 0x90, 2])
      && (b[1] !in {0x03, 0x04, 0x06, 0x10} ==> a == [b[0], b[1] | 0x80, 1])
    ensures b[1] !in {0x03, 0x04, 0x06, 0x10} ==> Execute(m, b, bank).bank == bank
  {
    hide Addr, Quantity, Written, AllAccepted, ReadAnswer, WordsAt, Extent;
    RefusalCodes(b[1]);
  }

  /** Section 6.6: a write of one register. The answer repeats the request if the register is mapped and the value
      accepted, and no other register changes. */
  lemma WriteSingleExchange(id: bv8, m: RegMap, bank: seq<U16>, b: seq<bv8>, reg: U16, value: U16)
    requires id != 0 && |b| == 256 && |bank| == m.count
    requires Received(b, WithCrc([id, 0x06, Hi(reg), Lo(reg), Hi(value), Lo(value)]))
    ensures InBuffer(m, b)
    ensures var o := Parse(id, m, b, 8, bank);
      var at := reg - m.start;
      && (!Mapped(m, reg, 1) ==> o == Outcome([id, 0x86, 2], bank))
      && (Mapped(m, reg, 1) && m.writable && !m.accepts(at, value) ==> o == Outcome([id, 0x86, 3], bank))
      && (Mapped(m, reg, 1) && m.writable && m.accepts(at, value) ==>
            o == Outcome([id, 0x06, Hi(reg), Lo(reg), Hi(value), Lo(value)], bank[at := value]))
      && (Mapped(m, reg, 1) && !m.writable ==>
            o == Outcome([id, 0x06, Hi(reg), Lo(reg), Hi(value), Lo(value)], bank))
  {
    hide Crc16, Hi, Lo, Join, Low, High, WordBytes, Twice, Served;
    var data := [id, 0x06, Hi(reg), Lo(reg), Hi(value), Lo(value)];
    RequestFields(b, data, reg, value);
    SentIsHeeded(id, id, b, data);
    RefusalCodes(WRITE_SINGLE);
    assert b[..6] == data;
    if Mapped(m, reg, 1) {
      OneWritten(m, bank, reg - m.start, value);
    }
  }

  lemma OneWritten(m: RegMap, bank: seq<U16>, at: nat, v: U16)
    requires at < |bank|
    ensures AllAccepted(m, at, [v]) <==> (m.writable ==> m.accepts(at, v))
    ensures Written(m, bank, at, [v]) == if m.writable && m.accepts(at, v) then bank[at := v] else bank
  {
    assert [v][1..] == [];
    assert AllAccepted(m, at, [v]) && m.writable ==> m.accepts(at + 0, [v][0]);
  }

  /** Two bytes and their checksum are the shortest request that is heeded. */
  lemma ShortestRequest(id: bv8, m: RegMap, bank: seq<U16>, b: seq<bv8>, f: bv8)
    requires id != 0 && |b| == 256 && |bank| == m.count && f !in {0x03, 0x04, 0x06, 0x10}
    requires Received(b, WithCrc([id, f]))
    ensures Heeded(id, b, 4) && (InBuffer(m, b) ==> Parse(id, m, b, 4, bank) == Outcome([id, f | 0x80, 1], bank))
    ensures forall n :: 0 <= n < 4 ==> !Heeded(id, b, n)
  {
    hide Crc16, Join, Low, High, WordBytes, Twice, Served, Addr, Quantity;
    SentIsHeeded(id, id, b, [id, f]);
    assert b[0] == b[..4][0] && b[1] == b[..4][1];
  }

  /** The answer to a write of several registers repeats the first six bytes of the request. */
  lemma WriteAnswer(id: bv8, m: RegMap, bank: seq<U16>, b: seq<bv8>, reg: U16, values: seq<U16>)
    requires id != 0 && 1 <= |values| <= 123 && |b| == 256 && |bank| == m.count
    requires Received(b, WithCrc(WriteRequest(id, reg, values)))
    ensures InBuffer(m, b)
    ensures var o := Parse(id, m, b, 9 + 2 * |values|, bank);
      && (Mapped(m, reg, |values|) && AllAccepted(m, reg - m.start, values) ==>
            o.answer == WriteRequest(id, reg, values)[..6])
      && (Mapped(m, reg, |values|) && !AllAccepted(m, reg - m.start, values) ==> o.answer == [id, 0x90, 3])
      && (!Mapped(m, reg, |values|) ==> o.answer == [id, 0x90, 2])
  {
    hide Crc16, Hi, Lo, Join, Low, High, WordBytes, Twice, Written, Execute, Mapped, InBuffer, AllAccepted;
    WriteIsExecuted(id, m, bank, b, reg, values);
    SentIsHeeded(id, id, b, WriteRequest(id, reg, values));
    RefusalCodes(WRITE_MULTIPLE);
    assert b[..6] == WithCrc(WriteRequest(id, reg, values))[..6];
  }

  // ---- requests that leave the slave's buffer -----------------------------------------------

  /** A read of 126 mapped registers is heeded, and its answer with the checksum has 257 bytes. */
  lemma LongRead(id: bv8, m: RegMap, bank: seq<U16>, b: seq<bv8>)
    requires id != 0 && |b| == 256 && |bank| == m.count && m.count >= 126
    requires Received(b, WithCrc(ReadRequest(id, m.start, 126)))
    ensures Heeded(id, b, 8) && !InBuffer(m, b)
    ensures Mapped(m, Addr(b), Quantity(b)) && |WithCrc(ReadAnswer(m, b, bank))| == 257
  {
    hide Crc16, Hi, Lo, Join, Low, High, WordBytes, Twice;
    var data := ReadRequest(id, m.start, 126);
    RequestFields(b, data, m.start, 126);
    SentIsHeeded(id, id, b, data);
  }

  /** So is a write that names 125 registers and carries none. */
  lemma EmptyWrite(id: bv8, m: RegMap, b: seq<bv8>)
    requires |b| == 256 && m.count >= 125
    requires Received(b, WithCrc([id, WRITE_MULTIPLE, Hi(m.start), Lo(m.start), Hi(125), Lo(125)]))
    ensures Heeded(id, b, 8) && !InBuffer(m, b)
  {
    hide Crc16, Hi, Lo, Join, Low, High;
    var data := [id, WRITE_MULTIPLE, Hi(m.start), Lo(m.start), Hi(125), Lo(125)];
    RequestFields(b, data, m.start, 125);
    SentIsHeeded(id, id, b, data);
  }

  // ---- noise on the line --------------------------------------------------------------------

  /** A request with one or two adjacent bytes changed is never carried out. */
  lemma NoisyRequest(id: bv8, m: RegMap, bank: seq<U16>, b: seq<bv8>, data: seq<bv8>, k: nat, x: bv8, y: bv8)
    requires k + 1 < |data| + 2 && |bank| == m.count
    requires var f := WithCrc(data); (f[k] != x || f[k + 1] != y) && Received(b, f[k := x][k + 1 := y])
    ensures !Heeded(id, b, |data| + 2)
    ensures Parse(id, m, b, |data| + 2, bank) == Outcome([], bank)
  {
    hide Crc16;
    AppendedCrcVanishes(data);
    BurstIsSeen(WithCrc(data), k, x, y);
  }

  /** A reply with one or two adjacent bytes changed is reported as a format error. */
  lemma NoisyReply(answer: seq<bv8>, k: nat, x: bv8, y: bv8, code: bv8)
    requires 1 <= |answer| <= 253 && k + 1 < |answer| + 2
    requires var f := WithCrc(answer); f[k] != x || f[k + 1] != y
    ensures Judge(WithCrc(answer)[k := x][k + 1 := y], code) == ErrorFormat
  {
    hide Crc16;
    AppendedCrcVanishes(answer);
    BurstIsSeen(WithCrc(answer), k, x, y);
  }
}
