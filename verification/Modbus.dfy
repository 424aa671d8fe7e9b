/** Modbus RTU frames as values: what the master sends, what the slave answers and what the master
    makes of the answer. Function codes and error values are those of the two drivers. */
module Modbus {
  import opened Common
  import opened Crc
  import opened Octets

  const READ_HOLDING: bv8 := 0x03
  const READ_INPUT: bv8 := 0x04
  const WRITE_SINGLE: bv8 := 0x06
  const WRITE_MULTIPLE: bv8 := 0x10

  const ILLEGAL_FUNCTION: bv8 := 1
  const ILLEGAL_ADDRESS: bv8 := 2
  const ILLEGAL_VALUE: bv8 := 3

  datatype Status = Ok | ErrorFormat | ErrorLength | ErrorTimeout | ErrorFunction

  // ---- 16-bit fields, high byte first -------------------------------------------------------

  function Hi(n: U16): bv8 { ToByte(n / 256) }
  function Lo(n: U16): bv8 { ToByte(n % 256) }

  function Join(hi: bv8, lo: bv8): U16 {
    FromByte(hi) * 256 + FromByte(lo)
  }

  lemma JoinSplit(n: U16)
    ensures Join(Hi(n), Lo(n)) == n
  {
    hide ToByte, FromByte;
    ByteRoundTrip(n / 256);
    ByteRoundTrip(n % 256);
  }

  /** The count byte: twice the number of registers, as far as a byte holds it. */
  function Twice(n: U16): bv8 { ToByte(2 * n % 256) }

  lemma TwiceHalves(n: U16)
    requires n < 128
    ensures FromByte(Twice(n)) == 2 * n
  {
    hide ToByte, FromByte;
    ByteRoundTrip(2 * n);
  }

  function WordBytes(vs: seq<U16>): (s: seq<bv8>)
    ensures |s| == 2 * |vs|
  {
    seq(2 * |vs|, j requires 0 <= j < 2 * |vs| => if j % 2 == 0 then Hi(vs[j / 2]) else Lo(vs[j / 2]))
  }

  lemma WordBytesGrow(vs: seq<U16>, i: nat)
    requires i < |vs|
    ensures WordBytes(vs)[..2 * (i + 1)] == WordBytes(vs)[..2 * i] + [Hi(vs[i]), Lo(vs[i])]
  {
  }

  function WordsAt(b: seq<bv8>, o: nat, n: nat): (vs: seq<U16>)
    requires o + 2 * n <= |b|
    ensures |vs| == n
  {
    seq(n, i requires 0 <= i < n => Join(b[o + 2 * i], b[o + 2 * i + 1]))
  }

  /** Registers laid out by one side are what the other side reads. */
  lemma WordsRoundTrip(b: seq<bv8>, o: nat, vs: seq<U16>)
    requires o + 2 * |vs| <= |b| && b[o..o + 2 * |vs|] == WordBytes(vs)
    ensures WordsAt(b, o, |vs|) == vs
  {
    hide Hi, Lo, Join;
    forall i | 0 <= i < |vs|
      ensures WordsAt(b, o, |vs|)[i] == vs[i]
    {
      JoinSplit(vs[i]);
      var s := b[o..o + 2 * |vs|];
      assert s[2 * i] == b[o + 2 * i] && s[2 * i + 1] == b[o + 2 * i + 1];
      assert (2 * i + 1) / 2 == i && (2 * i + 1) % 2 == 1;
    }
  }

  function WithCrc(data: seq<bv8>): (s: seq<bv8>)
    ensures |s| == |data| + 2
  {
    data + [Low(Crc16(data)), High(Crc16(data))]
  }

  // ---- the master ---------------------------------------------------------------------------

  function ReadRequest(id: bv8, reg: U16, num: U16): seq<bv8> {
    [id, READ_HOLDING, Hi(reg), Lo(reg), Hi(num), Lo(num)]
  }

  function WriteRequest(id: bv8, reg: U16, values: seq<U16>): seq<bv8>
    requires |values| < 0x1_0000
  {
    [id, WRITE_MULTIPLE, Hi(reg), Lo(reg), Hi(|values|), Lo(|values|), Twice(|values|)] + WordBytes(values)
  }

  /** The checks both master functions make on what came back; an empty answer is a timeout. */
  function Judge(reply: seq<bv8>, code: bv8): Status {
    if reply == [] then ErrorTimeout
    else if !(3 <= |reply| <= 255) then ErrorLength
    else if Crc16(reply) != 0 then ErrorFormat
    else if reply[1] != code then ErrorFunction
    else Ok
  }

  /** A frame of `s` received over, or built in, a buffer that held `b`. */
  function Laid(b: seq<bv8>, s: seq<bv8>): (r: seq<bv8>)
    requires |s| <= |b|
    ensures |r| == |b|
  {
    s + b[|s|..]
  }

  /** The registers a read decodes; it trusts the count byte, and the buffer has room for any. */
  function Decoded(buffer: seq<bv8>): seq<U16>
    requires |buffer| == 512
  {
    WordsAt(buffer, 3, FromByte(buffer[2]) / 2)
  }

  /** The registers a well-judged read reply carries. */
  function Carried(reply: seq<bv8>): seq<U16>
    requires |reply| >= 3 && 3 + 2 * (FromByte(reply[2]) / 2) <= |reply|
  {
    WordsAt(reply, 3, FromByte(reply[2]) / 2)
  }

  // ---- the slave ----------------------------------------------------------------------------

  /** The register map. `readable` and `writable` say whether the callbacks are set; the write
      callback stores what it accepts. */
  datatype RegMap = RegMap(start: U16, count: U16, readable: bool, writable: bool, accepts: (nat, U16) -> bool)

  predicate Mapped(m: RegMap, addr: nat, n: nat) {
    m.start <= addr && addr + n <= m.start + m.count
  }

  predicate InMap(m: RegMap, i: nat) {
    m.start <= i < m.start + m.count
  }

  /** That is: each of the `n` registers from `addr` on is one of the map. */
  lemma MappedIs(m: RegMap, addr: nat, n: nat)
    requires n > 0
    ensures Mapped(m, addr, n) <==> forall i: nat :: addr <= i < addr + n ==> InMap(m, i)
  {
    var last: nat := addr + n - 1;
    assert addr <= addr < addr + n && addr <= last < addr + n;
    assert Mapped(m, addr, n) <==> InMap(m, addr) && InMap(m, last);
  }

  /** The registers a read returns. */
  function Served(m: RegMap, bank: seq<U16>, at: nat, n: nat): (vs: seq<U16>)
    requires at + n <= |bank|
    ensures |vs| == n
  {
    if m.readable then bank[at..at + n] else seq(n, i => 0)
  }

  /** Writing `vs` one after the other from index `at`, each if accepted. */
  function Written(m: RegMap, bank: seq<U16>, at: nat, vs: seq<U16>): (b: seq<U16>)
    requires at + |vs| <= |bank|
    ensures |b| == |bank|
    decreases vs
  {
    if vs == [] || !m.writable then bank
    else Written(m, if m.accepts(at, vs[0]) then bank[at := vs[0]] else bank, at + 1, vs[1..])
  }

  predicate AllAccepted(m: RegMap, at: nat, vs: seq<U16>) {
    m.writable ==> forall i :: 0 <= i < |vs| ==> m.accepts(at + i, vs[i])
  }

  /** What a series of writes leaves, register by register. */
  lemma {:induction false} WrittenAt(m: RegMap, bank: seq<U16>, at: nat, vs: seq<U16>, k: nat)
    requires at + |vs| <= |bank| && k < |bank|
    ensures Written(m, bank, at, vs)[k]
      == if m.writable && at <= k < at + |vs| && m.accepts(k, vs[k - at]) then vs[k - at] else bank[k]
    decreases vs
  {
    if vs != [] && m.writable {
      var b := if m.accepts(at, vs[0]) then bank[at := vs[0]] else bank;
      WrittenAt(m, b, at + 1, vs[1..], k);
    }
  }

  /** One request executed: the answer without its checksum, and the registers afterwards. */
  datatype Outcome = Outcome(answer: seq<bv8>, bank: seq<U16>)

  function Exception(b: seq<bv8>, code: bv8): seq<bv8>
    requires |b| >= 2
  {
    [b[0], b[1] | 0x80, code]
  }

  /** The frame is well formed and meant for this slave, or for all. */
  predicate Heeded(id: bv8, b: seq<bv8>, n: nat)
    requires n <= |b|
  {
    n >= 4 && Crc16(b[..n]) == 0 && (b[0] == id || b[0] == 0)
  }

  function Addr(b: seq<bv8>): U16
    requires |b| >= 6
  {
    Join(b[2], b[3])
  }

  function Quantity(b: seq<bv8>): U16
    requires |b| >= 6
  {
    Join(b[4], b[5])
  }

  predicate IsRead(b: seq<bv8>)
    requires |b| >= 2
  {
    b[1] == READ_HOLDING || b[1] == READ_INPUT
  }

  /** The answer to a read of mapped registers. */
  function ReadAnswer(m: RegMap, b: seq<bv8>, bank: seq<U16>): seq<bv8>
    requires |b| >= 6 && |bank| == m.count && Mapped(m, Addr(b), Quantity(b))
  {
    [b[0], b[1], Twice(Quantity(b))] + WordBytes(Served(m, bank, Addr(b) - m.start, Quantity(b)))
  }

  /** The leading cells of the buffer that a heeded request makes the slave touch: the data of a mapped read, with a
      checksum behind it unless the request was a broadcast; the values of a mapped write; otherwise the request's own
      fields, or a short answer with its checksum. */
  function Extent(m: RegMap, b: seq<bv8>): nat
    requires |b| >= 6
  {
    if !Mapped(m, Addr(b), Quantity(b)) then 8
    else if IsRead(b) then 3 + 2 * Quantity(b) + (if b[0] == 0 then 0 else 2)
    else if b[1] == WRITE_MULTIPLE && Quantity(b) > 0 then 7 + 2 * Quantity(b)
    else 8
  }

  /** What a request touches lies in the slave's buffer. */
  predicate InBuffer(m: RegMap, b: seq<bv8>) {
    |b| >= 8 && Extent(m, b) <= |b|
  }

  /** The switch over function codes on the buffer `b`. */
  function Execute(m: RegMap, b: seq<bv8>, bank: seq<U16>): Outcome
    requires InBuffer(m, b) && |bank| == m.count
  {
    if IsRead(b) then
      if Mapped(m, Addr(b), Quantity(b)) then
        Outcome(ReadAnswer(m, b, bank), bank)
      else Outcome(Exception(b, ILLEGAL_ADDRESS), bank)
    else if b[1] == WRITE_SINGLE then
      if Mapped(m, Addr(b), 1) then
        var at := Addr(b) - m.start;
        var v := [Quantity(b)];
        Outcome(if AllAccepted(m, at, v) then b[..6] else Exception(b, ILLEGAL_VALUE), Written(m, bank, at, v))
      else Outcome(Exception(b, ILLEGAL_ADDRESS), bank)
    else if b[1] == WRITE_MULTIPLE then
      if Mapped(m, Addr(b), Quantity(b)) then
        var at := Addr(b) - m.start;
        var vs := WordsAt(b, 7, Quantity(b));
        Outcome(if AllAccepted(m, at, vs) then b[..6] else Exception(b, ILLEGAL_VALUE), Written(m, bank, at, vs))
      else Outcome(Exception(b, ILLEGAL_ADDRESS), bank)
    else Outcome(Exception(b, ILLEGAL_FUNCTION), bank)
  }

  /** `ModbusSlaveParse`: a frame not heeded changes nothing; a broadcast is never answered. */
  function Parse(id: bv8, m: RegMap, b: seq<bv8>, n: nat, bank: seq<U16>): Outcome
    requires n <= |b| && |bank| == m.count && (Heeded(id, b, n) ==> InBuffer(m, b))
  {
    if !Heeded(id, b, n) then Outcome([], bank)
    else
      var o := Execute(m, b, bank);
      if b[0] == 0 then o.(answer := []) else o
  }

  /** What the slave puts on the line. */
  function Reply(o: Outcome): seq<bv8> {
    if o.answer == [] then [] else WithCrc(o.answer)
  }

  // ---- where the buffers end ----------------------------------------------------------------

  /** The most registers a request may name to stay in the slave's 256 bytes. */
  function Limit(b: seq<bv8>): nat
    requires |b| >= 2
  {
    if IsRead(b) then (if b[0] == 0 then 126 else 125)
    else if b[1] == WRITE_MULTIPLE then 124
    else 0xFFFF
  }

  /** A request stays in the slave's 256 bytes exactly if it is refused for its address or names no more registers than
      that. For a read that is whether the answer fits that the slave lays out, with its checksum when it is sent. */
  lemma InBufferIff(m: RegMap, b: seq<bv8>, bank: seq<U16>)
    requires |b| == 256 && |bank| == m.count
    ensures InBuffer(m, b) <==> (Mapped(m, Addr(b), Quantity(b)) ==> Quantity(b) <= Limit(b))
    ensures IsRead(b) && Mapped(m, Addr(b), Quantity(b)) ==>
      var answer := ReadAnswer(m, b, bank);
      InBuffer(m, b) <==> |if b[0] == 0 then answer else WithCrc(answer)| <= |b|
  {
    hide Crc16, Join, Served, Low, High;
  }

  /** The frame of a write stays in the master's 512 bytes exactly up to 251 registers. */
  lemma WriteFrameFits(id: bv8, reg: U16, values: seq<U16>)
    requires |values| < 0x1_0000
    ensures |WithCrc(WriteRequest(id, reg, values))| <= 512 <==> |values| <= 251
  {
  }

  /** What is decoded from a reply owes nothing to earlier traffic exactly if the reply is as long as its count
      says. */
  lemma DecodedIsFresh(reply: seq<bv8>)
    requires 3 <= |reply| <= 255
    ensures (forall b, c | |b| == |c| == 512 :: Decoded(Laid(b, reply)) == Decoded(Laid(c, reply)))
      <==> 3 + 2 * (FromByte(reply[2]) / 2) <= |reply|
    ensures 3 + 2 * (FromByte(reply[2]) / 2) <= |reply| ==>
      forall b | |b| == 512 :: Decoded(Laid(b, reply)) == Carried(reply)
  {
    hide FromByte;
    var n := FromByte(reply[2]) / 2;
    if 3 + 2 * n <= |reply| {
      forall b | |b| == 512
        ensures Decoded(Laid(b, reply)) == Carried(reply)
      {
        hide Join;
      }
    } else {
      StaleShows(reply);
    }
  }

  lemma StaleShows(reply: seq<bv8>)
    requires 3 <= |reply| <= 255 && 3 + 2 * (FromByte(reply[2]) / 2) > |reply|
    ensures exists b, c :: |b| == |c| == 512 && Decoded(Laid(b, reply)) != Decoded(Laid(c, reply))
  {
    var zeros, ones := seq(512, i => 0 as bv8), seq(512, i => 0xFF as bv8);
    var i := FromByte(reply[2]) / 2 - 1;
    var b, c := Laid(zeros, reply), Laid(ones, reply);
    assert b[3 + 2 * i + 1] == 0 && c[3 + 2 * i + 1] == 0xFF;
    assert Decoded(b)[i] == Join(b[3 + 2 * i], b[3 + 2 * i + 1]);
    assert Decoded(c)[i] == Join(c[3 + 2 * i], c[3 + 2 * i + 1]);
  }

  /** Five bytes that pass every check and name a hundred registers. */
  lemma ShortReply(id: bv8)
    ensures var reply := WithCrc([id, READ_HOLDING, 200]);
      && |reply| == 5 && Judge(reply, READ_HOLDING) == Ok && FromByte(reply[2]) / 2 == 100
      && 3 + 2 * (FromByte(reply[2]) / 2) > |reply|
  {
    hide Crc16;
    AppendedCrcVanishes([id, READ_HOLDING, 200]);
  }

  // ---- the frames in numbers ------------------------------------------------------------------

  /** A byte as it is written in the lemmas below. */
  predicate Bytes(s: seq<bv8>, numbers: seq<nat>) {
    |s| == |numbers| && forall i :: 0 <= i < |s| ==> FromByte(s[i]) == numbers[i]
  }

  lemma HalvesAre(n: U16)
    ensures FromByte(Hi(n)) == n / 256 && FromByte(Lo(n)) == n % 256
  {
    hide ToByte, FromByte;
    ByteRoundTrip(n / 256);
    ByteRoundTrip(n % 256);
  }

  lemma CodesAre()
    ensures FromByte(READ_HOLDING) == 3 && FromByte(WRITE_MULTIPLE) == 16
  {
  }

  /** A read request is the address, function 3, the first register and the number of registers. */
  lemma ReadRequestBytes(id: bv8, reg: U16, num: U16)
    ensures Bytes(ReadRequest(id, reg, num), [FromByte(id), 3, reg / 256, reg % 256, num / 256, num % 256])
  {
    hide FromByte, Hi, Lo;
    CodesAre();
    HalvesAre(reg);
    HalvesAre(num);
  }

  /** A write request begins with the address, function 16, the first register, and the numbers of registers and of
      bytes; */
  lemma WriteRequestBytes(id: bv8, reg: U16, values: seq<U16>)
    requires |values| < 128
    ensures var r, n := WriteRequest(id, reg, values), |values|;
      |r| == 7 + 2 * n && Bytes(r[..7], [FromByte(id), 16, reg / 256, reg % 256, n / 256, n % 256, 2 * n])
  {
    hide FromByte, Hi, Lo, Twice, WordBytes;
    CodesAre();
    HalvesAre(reg);
    HalvesAre(|values|);
    TwiceHalves(|values|);
    var n := |values|;
    var head := [id, WRITE_MULTIPLE, Hi(reg), Lo(reg), Hi(n), Lo(n), Twice(n)];
    assert WriteRequest(id, reg, values)[..7] == head;
  }

  /** then come the values, each with its high byte first. */
  lemma WriteRequestValue(id: bv8, reg: U16, values: seq<U16>, k: nat)
    requires k < |values| < 128
    ensures var r := WriteRequest(id, reg, values);
      FromByte(r[7 + 2 * k]) == values[k] / 256 && FromByte(r[8 + 2 * k]) == values[k] % 256
  {
    hide FromByte, Hi, Lo, Twice;
    HalvesAre(values[k]);
    var w := WordBytes(values);
    assert w[2 * k] == Hi(values[k]) && w[2 * k + 1] == Lo(values[k]);
  }

  lemma ExampleSteps()
    ensures ByteStep(0xFFFF, 0x01) == 0x807E
    ensures ByteStep(0x807E, 0x03) == 0x2140
    ensures ByteStep(0x2140, 0x00) == 0xF020
    ensures ByteStep(0xF020, 0x00) == 0xD8F1
    ensures ByteStep(0xD8F1, 0x00) == 0x8419
    ensures ByteStep(0x8419, 0x0A) == 0xCDC5
  {
  }

  lemma ExampleCrc()
    ensures Crc16([0x01, 0x03, 0x00, 0x00, 0x00, 0x0A]) == 0xCDC5
  {
    hide ByteStep;
    var d := [0x01, 0x03, 0x00, 0x00, 0x00, 0x0A];
    ExampleSteps();
    assert d[..1][..0] == d[..0] && Residue(0xFFFF, d[..1]) == 0x807E;
    assert d[..2][..1] == d[..1] && Residue(0xFFFF, d[..2]) == 0x2140;
    assert d[..3][..2] == d[..2] && Residue(0xFFFF, d[..3]) == 0xF020;
    assert d[..4][..3] == d[..3] && Residue(0xFFFF, d[..4]) == 0xD8F1;
    assert d[..5][..4] == d[..4] && Residue(0xFFFF, d[..5]) == 0x8419;
    assert d[..6][..5] == d[..5] && Residue(0xFFFF, d[..6]) == 0xCDC5;
    assert d[..6] == d;
  }

  lemma ExampleHalves()
    ensures Low(0xCDC5) == 0xC5 && High(0xCDC5) == 0xCD && Hi(0) == 0 && Lo(0) == 0 && Hi(10) == 0 && Lo(10) == 10
  {
  }

  /** Ten registers from 0 on of slave 1, byte by byte, the checksum last. */
  lemma ReadExample()
    ensures WithCrc(ReadRequest(1, 0, 10)) == [0x01, 0x03, 0x00, 0x00, 0x00, 0x0A, 0xC5, 0xCD]
  {
    ExampleHalves();
    hide Crc16, Low, High, Hi, Lo;
    ExampleCrc();
  }

  /** What the master makes of an answer: nothing is a timeout, 1, 2 or more than 255 bytes a wrong length, then the
      checksum is looked at and then the function. */
  lemma JudgedBy(reply: seq<bv8>, code: bv8)
    ensures Judge(reply, code) == ErrorTimeout <==> |reply| == 0
    ensures Judge(reply, code) == ErrorLength <==> |reply| in {1, 2} || |reply| >= 256
    ensures Judge(reply, code) == ErrorFormat <==> 3 <= |reply| <= 255 && Crc16(reply) != 0
    ensures Judge(reply, code) == Ok <==> 3 <= |reply| <= 255 && Crc16(reply) == 0 && reply[1] == code
  {
    hide Crc16;
  }
}
