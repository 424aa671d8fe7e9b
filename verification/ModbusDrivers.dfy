/** The two Modbus drivers as they are written: byte buffers filled and rewritten in place. */
module ModbusDrivers {
  import opened Common
  import opened Crc
  import opened Modbus
  import opened Octets

  /** `SETU16`. */
  method PutU16(b: array<bv8>, o: nat, v: U16)
    requires o + 2 <= b.Length
    modifies b
    ensures b[..] == old(b[..])[o := Hi(v)][o + 1 := Lo(v)]
  {
    b[o] := Hi(v);
    b[o + 1] := Lo(v);
  }

  /** One more register of a run of registers that begins at `o`. */
  method PutNext(b: array<bv8>, o: nat, i: nat, v: U16, ghost vs: seq<U16>)
    requires i < |vs| && v == vs[i] && o + 2 * |vs| <= b.Length
    requires b[o..o + 2 * i] == WordBytes(vs)[..2 * i]
    modifies b
    ensures b[o..o + 2 * (i + 1)] == WordBytes(vs)[..2 * (i + 1)] && b[..o] == old(b[..o])
  {
    hide Hi, Lo, WordBytes;
    ghost var done := b[o..o + 2 * i];
    PutU16(b, o + i * 2, v);
    assert b[o..o + 2 * (i + 1)] == done + [Hi(v), Lo(v)];
    WordBytesGrow(vs, i);
  }

  class Slave {
    const buffer: array<bv8>
    var id: bv8
    var regs: RegMap

    /** The registers behind the callbacks. */
    var bank: seq<U16>

    ghost predicate Valid()
      reads this
    {
      buffer.Length == 256 && |bank| == regs.count
    }

    constructor (id: bv8, regs: RegMap, bank: seq<U16>)
      requires |bank| == regs.count
      ensures Valid() && fresh(buffer)
      ensures this.id == id && this.regs == regs && this.bank == bank
    {
      buffer := new bv8[256](i => 0);
      this.id, this.regs, this.bank := id, regs, bank;
    }

    /** The read callback, or zero without one. */
    method ReadReg(at: nat) returns (v: U16)
      requires Valid() && at < regs.count
      ensures v == if regs.readable then bank[at] else 0
    {
      v := if regs.readable then bank[at] else 0;
    }

    /** The write callback. */
    method WriteReg(at: nat, v: U16) returns (accepted: bool)
      requires Valid() && at < regs.count && regs.writable
      modifies this`bank
      ensures accepted == regs.accepts(at, v) && bank == if accepted then old(bank)[at := v] else old(bank)
    {
      accepted := regs.accepts(at, v);
      if accepted {
        bank := bank[at := v];
      }
    }

    /** The read case: the registers overwrite the request from its fourth byte on. */
    method ServeRead(addr: nat, num: U16)
      requires Valid() && addr + num <= regs.count && 3 + 2 * num <= 256
      modifies buffer
      ensures buffer[..2] == old(buffer[..2])
      ensures buffer[2..3 + 2 * num] == [Twice(num)] + WordBytes(Served(regs, bank, addr, num))
    {
      ghost var vs := Served(regs, bank, addr, num);
      hide Hi, Lo, Twice, WordBytes, Served;
      for i := 0 to num
        invariant buffer[..3] == old(buffer[..3])
        invariant buffer[3..3 + 2 * i] == WordBytes(vs)[..2 * i]
      {
        var v := ReadReg(addr + i);
        ServedAt(regs, bank, addr, num, i);
        PutNext(buffer, 3, i, v, vs);
      }
      assert WordBytes(vs)[..2 * num] == WordBytes(vs);
      buffer[2] := Twice(num);
    }

    /** The write cases: each value in turn, remembering whether any was refused. */
    method TakeWrites(addr: nat, o: nat, num: nat) returns (refused: bool)
      requires Valid() && addr + num <= regs.count && o + 2 * num <= 256
      modifies this`bank
      ensures Valid() && bank == Written(regs, old(bank), addr, WordsAt(buffer[..], o, num))
      ensures refused == !AllAccepted(regs, addr, WordsAt(buffer[..], o, num))
    {
      hide Join, Written, WordsAt;
      refused := false;
      ghost var b0, vs := bank, WordsAt(buffer[..], o, num);
      assert vs[0..] == vs;
      for i := 0 to num
        invariant |bank| == regs.count
        invariant Written(regs, b0, addr, vs) == Written(regs, bank, addr + i, vs[i..])
        invariant refused == (regs.writable && exists j :: 0 <= j < i && !regs.accepts(addr + j, vs[j]))
      {
        var v := Join(buffer[o + 2 * i], buffer[o + 2 * i + 1]);
        WordIs(buffer[..], o, num, i);
        WrittenNext(regs, bank, addr + i, vs[i..]);
        assert vs[i..][1..] == vs[i + 1..];
        if regs.writable {
          var accepted := WriteReg(addr + i, v);
          if !accepted {
            refused := true;
          }
        }
      }
      WrittenNone(regs, bank, addr + num, vs[num..]);
    }

    /** The switch over function codes: an exception code, or the size of an answer in place. */
    method Dispatch() returns (exception: bv8, size: nat)
      requires Valid() && InBuffer(regs, buffer[..])
      modifies buffer, this`bank
      ensures Valid() && buffer[..2] == old(buffer[..2])
      ensures bank == Execute(regs, old(buffer[..]), old(bank)).bank
      ensures var answer := Execute(regs, old(buffer[..]), old(bank)).answer;
        if exception == 0
        then size == |answer| <= 256 && (buffer[0] != 0 ==> size <= 253) && buffer[..size] == answer
        else answer == Exception(buffer[..], exception)
    {
      hide Crc16, Hi, Lo, Join, Twice, Written, WordBytes, WordsAt, Served, AllAccepted;
      ghost var b := buffer[..];
      exception, size := 0, 0;
      var code := buffer[1];
      if code == READ_HOLDING || code == READ_INPUT {
        var addr, num := Join(buffer[2], buffer[3]), Join(buffer[4], buffer[5]);
        if regs.start <= addr && addr + num <= regs.start + regs.count {
          ServeRead(addr - regs.start, num);
          size := 3 + num * 2;
          assert buffer[..size] == buffer[..2] + buffer[2..size];
          assert b[..2] == [b[0], b[1]];
        } else {
          exception := ILLEGAL_ADDRESS;
        }
      } else if code == WRITE_SINGLE {
        var addr := Join(buffer[2], buffer[3]);
        if regs.start <= addr && addr + 1 <= regs.start + regs.count {
          var refused := TakeWrites(addr - regs.start, 4, 1);
          OneWord(b);
          if refused {
            exception := ILLEGAL_VALUE;
          }
          size := 6;
        } else {
          exception := ILLEGAL_ADDRESS;
        }
      } else if code == WRITE_MULTIPLE {
        var addr, num := Join(buffer[2], buffer[3]), Join(buffer[4], buffer[5]);
        if regs.start <= addr && addr + num <= regs.start + regs.count {
          var refused := TakeWrites(addr - regs.start, 7, num);
          if refused {
            exception := ILLEGAL_VALUE;
          }
          size := 6;
        } else {
          exception := ILLEGAL_ADDRESS;
        }
      } else {
        exception := ILLEGAL_FUNCTION;
      }
      assert buffer[..2] == b[..2];
    }

    /** An exception answer in place. */
    method Except(exception: bv8)
      requires Valid()
      modifies buffer
      ensures buffer[0] == old(buffer[0]) && buffer[..3] == Exception(old(buffer[..]), exception)
    {
      buffer[1] := buffer[1] | 0x80;
      buffer[2] := exception;
    }

    /** `ModbusSlaveParse`: the request is rewritten into the answer in place. */
    method Parse(n: nat) returns (size: nat)
      requires Valid() && n <= 256 && (Heeded(id, buffer[..], n) ==> InBuffer(regs, buffer[..]))
      modifies buffer, this`bank
      ensures Valid()
      ensures var o := Modbus.Parse(id, regs, old(buffer[..]), n, old(bank));
        && bank == o.bank && size == |o.answer| <= 253 && buffer[..size] == o.answer
    {
      hide Crc16, Execute, InBuffer, Exception;
      ghost var b := buffer[..];
      size := 0;
      if n < 4 {
        return;
      }
      var crc := Crc16Ibm(buffer, n);
      assert buffer[..n] == b[..n];
      if crc != 0 || !(buffer[0] == id || buffer[0] == 0) {
        return;
      }
      var exception: bv8;
      exception, size := Dispatch();
      assert buffer[0] == b[0] && buffer[1] == b[1] by { assert buffer[..2] == b[..2]; }
      if exception != 0 {
        Except(exception);
        size := 3;
      }
      if buffer[0] == 0 {
        size := 0;
      }
    }

    /** One round of `ModbusSlaveProc` on a received frame of `n` bytes: `out` is what is sent. */
    method Proc(n: nat) returns (out: seq<bv8>)
      requires Valid() && 0 < n <= 256 && (Heeded(id, buffer[..], n) ==> InBuffer(regs, buffer[..]))
      modifies buffer, this`bank
      ensures Valid()
      ensures var o := Modbus.Parse(id, regs, old(buffer[..]), n, old(bank));
        bank == o.bank && out == Reply(o)
    {
      hide Crc16, Modbus.Parse, Low, High;
      var size := Parse(n);
      out := [];
      if size > 0 {
        var crc := Crc16Ibm(buffer, size);
        ghost var answer := buffer[..size];
        buffer[size] := Low(crc);
        size := size + 1;
        buffer[size] := High(crc);
        size := size + 1;
        out := buffer[..size];
        assert out == answer + [Low(crc), High(crc)];
      }
    }
  }

  lemma ServedAt(m: RegMap, bank: seq<U16>, at: nat, n: nat, i: nat)
    requires at + n <= |bank| && i < n
    ensures Served(m, bank, at, n)[i] == if m.readable then bank[at + i] else 0
  {
  }

  lemma WordIs(b: seq<bv8>, o: nat, n: nat, i: nat)
    requires o + 2 * n <= |b| && i < n
    ensures WordsAt(b, o, n)[i] == Join(b[o + 2 * i], b[o + 2 * i + 1])
  {
  }

  lemma WrittenNext(m: RegMap, bank: seq<U16>, at: nat, vs: seq<U16>)
    requires at + |vs| <= |bank| && vs != []
    ensures Written(m, bank, at, vs)
      == if m.writable then Written(m, if m.accepts(at, vs[0]) then bank[at := vs[0]] else bank, at + 1, vs[1..])
         else Written(m, bank, at + 1, vs[1..])
  {
  }

  lemma WrittenNone(m: RegMap, bank: seq<U16>, at: nat, vs: seq<U16>)
    requires at + |vs| <= |bank| && vs == []
    ensures Written(m, bank, at, vs) == bank
  {
  }

  lemma OneWord(b: seq<bv8>)
    requires |b| >= 6
    ensures WordsAt(b, 4, 1) == [Quantity(b)]
  {
  }

  class Master {
    const buffer: array<bv8>

    ghost predicate Valid()
      reads this
    {
      buffer.Length == 512
    }

    constructor ()
      ensures Valid() && fresh(buffer)
    {
      buffer := new bv8[512](i => 0);
    }

    /** The checksum, low byte first, after the first `n` bytes. */
    method Seal(n: nat) returns (total: nat)
      requires Valid() && n + 2 <= 512
      modifies buffer
      ensures total == n + 2 && buffer[..total] == WithCrc(old(buffer[..n])) && buffer[total..] == old(buffer[n + 2..])
    {
      hide Crc16, Low, High;
      var crc := Crc16Ibm(buffer, n);
      buffer[n] := Low(crc);
      buffer[n + 1] := High(crc);
      total := n + 2;
      assert buffer[..total] == old(buffer[..n]) + [Low(crc), High(crc)];
    }

    /** `ModbusRecv`: what arrives lands at the start of the buffer. */
    method Receive(arriving: seq<bv8>)
      requires Valid() && |arriving| <= 512
      modifies buffer
      ensures buffer[..] == Laid(old(buffer[..]), arriving)
    {
      forall i | 0 <= i < |arriving| { buffer[i] := arriving[i]; }
    }

    /** The verdict both functions reach on the received bytes. */
    method Verdict(n: nat, code: bv8) returns (status: Status)
      requires Valid() && n <= 512
      ensures status == Judge(buffer[..n], code)
    {
      hide Crc16;
      if n == 0 {
        return ErrorTimeout;
      }
      if n < 3 || n > 255 {
        return ErrorLength;
      }
      var crc := Crc16Ibm(buffer, n);
      if crc != 0 {
        return ErrorFormat;
      }
      status := if buffer[1] != code then ErrorFunction else Ok;
    }

    /** The values of a write, laid out after its seven leading bytes. */
    method PutWords(values: array<U16>, num: U16)
      requires Valid() && values as object != buffer as object && num <= values.Length && 7 + 2 * num <= 512
      modifies buffer
      ensures buffer[..7] == old(buffer[..7]) && buffer[7..7 + 2 * num] == WordBytes(values[..num])
    {
      hide Hi, Lo, WordBytes;
      ghost var vs := values[..num];
      for i := 0 to num
        invariant buffer[..7] == old(buffer[..7]) && values[..num] == vs
        invariant buffer[7..7 + 2 * i] == WordBytes(vs)[..2 * i]
      {
        PutNext(buffer, 7, i, values[i], vs);
      }
      assert WordBytes(vs)[..2 * num] == WordBytes(vs);
    }

    /** `ModbusMasterWriteMultipleRegs`: `sent` goes out, `arriving` comes back. */
    method WriteMultipleRegs(id: bv8, reg: U16, values: array<U16>, num: U16, arriving: seq<bv8>)
      returns (sent: seq<bv8>, status: Status)
      requires Valid() && values as object != buffer as object
      requires num <= values.Length && 9 + 2 * num <= 512 && |arriving| <= 512
      modifies buffer
      ensures sent == WithCrc(WriteRequest(id, reg, values[..num]))
      ensures status == if id == 0 then Ok else Judge(arriving, WRITE_MULTIPLE)
    {
      hide Crc16, Hi, Lo, Twice, Low, High, WordBytes, WithCrc;
      buffer[0] := id;
      buffer[1] := WRITE_MULTIPLE;
      PutU16(buffer, 2, reg);
      PutU16(buffer, 4, num);
      buffer[6] := Twice(num);
      ghost var vs := values[..num];
      ghost var head := buffer[..7];
      assert head == [id, WRITE_MULTIPLE, Hi(reg), Lo(reg), Hi(num), Lo(num), Twice(num)];
      PutWords(values, num);
      assert buffer[..7 + 2 * num] == buffer[..7] + buffer[7..7 + 2 * num];
      var n := Seal(7 + 2 * num);
      sent := buffer[..n];
      status := Ok;
      if id != 0 {
        Receive(arriving);
        assert buffer[..|arriving|] == arriving;
        status := Verdict(|arriving|, WRITE_MULTIPLE);
      }
    }

    /** The decoding loop of a read. */
    method Unpack(output: array<U16>)
      requires Valid() && output as object != buffer as object && FromByte(buffer[2]) / 2 <= output.Length
      modifies output
      ensures output[..] == Decoded(buffer[..]) + old(output[FromByte(buffer[2]) / 2..])
    {
      hide Join, FromByte, WordsAt;
      ghost var vs := Decoded(buffer[..]);
      for i := 0 to FromByte(buffer[2]) / 2
        invariant output[..i] == vs[..i] && output[i..] == old(output[i..])
      {
        WordIs(buffer[..], 3, |vs|, i);
        output[i] := Join(buffer[3 + i * 2], buffer[3 + i * 2 + 1]);
      }
      assert output[..] == output[..|vs|] + output[|vs|..];
    }

    /** `ModbusMasterReadInputRegs`: as many registers as a good answer's count names are stored in order, and nothing
        else of `output` changes. */
    method ReadInputRegs(id: bv8, reg: U16, num: U16, output: array<U16>, arriving: seq<bv8>)
      returns (sent: seq<bv8>, status: Status)
      requires Valid() && output as object != buffer as object && |arriving| <= 512
      requires id != 0 && Judge(arriving, READ_HOLDING) == Ok ==> FromByte(arriving[2]) / 2 <= output.Length
      modifies buffer, output
      ensures sent == WithCrc(ReadRequest(id, reg, num))
      ensures status == if id == 0 then Ok else Judge(arriving, READ_HOLDING)
      ensures id != 0 ==> buffer[..] == Laid(Laid(old(buffer[..]), sent), arriving)
      ensures if id != 0 && status == Ok
        then output[..] == Decoded(buffer[..]) + old(output[FromByte(arriving[2]) / 2..])
        else output[..] == old(output[..])
    {
      hide Crc16, Hi, Lo, Low, High, FromByte, WithCrc, Decoded;
      ghost var b := buffer[..];
      buffer[0] := id;
      buffer[1] := READ_HOLDING;
      PutU16(buffer, 2, reg);
      PutU16(buffer, 4, num);
      assert buffer[..6] == ReadRequest(id, reg, num);
      var n := Seal(6);
      sent := buffer[..n];
      assert buffer[..] == Laid(b, sent);
      status := Ok;
      if id != 0 {
        Receive(arriving);
        assert buffer[..|arriving|] == arriving;
        status := Verdict(|arriving|, READ_HOLDING);
        if status == Ok {
          assert buffer[2] == arriving[2];
          Unpack(output);
        }
      }
    }
  }
}
