/** The two drivers on one line: what a call of a master function does to the slave and to the caller. */
module ModbusSystem {
  import opened Common
  import opened Crc
  import opened Modbus
  import opened ModbusDrivers
  import opened ModbusExchange
  import opened Octets

  /** `ModbusRecv` of the slave: the frame lands at the start of its buffer. */
  method Deliver(s: Slave, frame: seq<bv8>)
    requires s.Valid() && |frame| <= 256
    modifies s.buffer
    ensures s.Valid() && Received(s.buffer[..], frame)
  {
    forall i | 0 <= i < |frame| { s.buffer[i] := frame[i]; }
    assert s.buffer[..][..|frame|] == frame;
  }

  lemma JudgedOkIsRead(reply: seq<bv8>)
    ensures Judge(reply, READ_HOLDING) == Ok ==> |reply| >= 3
  {
  }

  /** A read of 1 to 125 registers over a clean line: the caller gets the slave's values in order when all are
      mapped and an error otherwise; the slave's registers and the rest of the caller's array stay. */
  method Read(m: Master, s: Slave, reg: U16, num: U16, output: array<U16>) returns (status: Status)
    requires m.Valid() && s.Valid() && s.id != 0 && 1 <= num <= 125 && num <= output.Length
    requires m.buffer != s.buffer && output as object != m.buffer as object && output as object != s.buffer as object
    modifies m.buffer, s.buffer, s`bank, output
    ensures s.bank == old(s.bank)
    ensures status == if Mapped(s.regs, reg, num) then Ok else ErrorFunction
    ensures if status == Ok
      then output[..] == Served(s.regs, s.bank, reg - s.regs.start, num) + old(output[num..])
      else output[..] == old(output[..])
  {
    hide Crc16, WithCrc, ReadRequest, Modbus.Parse, Reply, Judge, WordsAt, Served, Heeded, InBuffer, FromByte;
    var frame := WithCrc(ReadRequest(s.id, reg, num));
    assert |frame| == 8 by { assert |ReadRequest(s.id, reg, num)| == 6 by { ReadSize(s.id, reg, num); } }
    Deliver(s, frame);
    ReadExchange(s.id, s.regs, s.bank, s.buffer[..], reg, num);
    var answer := s.Proc(8);
    JudgedOkIsRead(answer);
    ReplySize(answer);
    var sent;
    ghost var held := m.buffer[..];
    sent, status := m.ReadInputRegs(s.id, reg, num, output, answer);
    assert sent == frame;
    if status == Ok {
      DecodedIsFresh(answer);
      assert Decoded(Laid(Laid(held, frame), answer)) == Carried(answer);
    }
  }

  lemma ReadSize(id: bv8, reg: U16, num: U16)
    ensures |ReadRequest(id, reg, num)| == 6
  {
  }

  lemma ReplySize(reply: seq<bv8>)
    ensures Judge(reply, READ_HOLDING) in {Ok, ErrorFunction} ==> |reply| <= 255
    ensures Judge(reply, WRITE_MULTIPLE) in {Ok, ErrorFunction} ==> |reply| <= 255
  {
  }

  /** A write of 1 to 123 registers over a clean line. The addressed slave, and every slave for address 0, stores each
      accepted value in its own register; a slave with another address stores nothing. The caller
      learns whether all were mapped and accepted, or that no slave answered. */
  method Write(m: Master, s: Slave, to: bv8, reg: U16, values: array<U16>, num: U16) returns (status: Status)
    requires m.Valid() && s.Valid() && s.id != 0 && 1 <= num <= 123 && num <= values.Length
    requires m.buffer != s.buffer && values as object != m.buffer as object && values as object != s.buffer as object
    modifies m.buffer, s.buffer, s`bank
    ensures s.Valid()
    ensures var mapped := Mapped(s.regs, reg, num);
      && s.bank == (if (to == s.id || to == 0) && mapped
                    then Written(s.regs, old(s.bank), reg - s.regs.start, old(values[..num])) else old(s.bank))
      && status == if to == 0 then Ok else if to != s.id then ErrorTimeout
                   else if mapped && AllAccepted(s.regs, reg - s.regs.start, old(values[..num])) then Ok else ErrorFunction
  {
    hide Crc16, WithCrc, WriteRequest, Modbus.Parse, Reply, Judge, Written, AllAccepted, Heeded, InBuffer;
    ghost var bank := s.bank;
    var vs := values[..num];
    var request := WriteRequest(to, reg, vs);
    WriteSize(to, reg, vs);
    var frame := WithCrc(request);
    Deliver(s, frame);
    if to == s.id {
      WriteExchange(s.id, s.regs, bank, s.buffer[..], reg, vs);
    } else if to == 0 {
      Broadcast(s.id, s.regs, bank, s.buffer[..], reg, vs);
    } else {
      OtherSlave(s.id, to, s.regs, bank, s.buffer[..], request, WRITE_MULTIPLE);
    }
    var answer := s.Proc(|frame|);
    EmptyAnswer(answer);
    ReplySize(answer);
    var sent;
    sent, status := m.WriteMultipleRegs(to, reg, values, num, answer);
    assert sent == frame;
  }

  lemma WriteSize(to: bv8, reg: U16, vs: seq<U16>)
    requires |vs| < 0x1_0000
    ensures |WriteRequest(to, reg, vs)| == 7 + 2 * |vs| && WriteRequest(to, reg, vs)[0] == to
  {
  }

  lemma EmptyAnswer(reply: seq<bv8>)
    ensures Judge(reply, WRITE_MULTIPLE) == ErrorTimeout ==> reply == []
  {
  }
}
