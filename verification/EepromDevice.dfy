/** The memory device drivers/at_eeprom.c talks to, as far as it can tell from the bus. */
module EepromDevice {
  import opened BitNumbers
  import opened Common
  import opened I2cBus
  import opened I2cSw
  import opened Octets

  // ---- where the driver's registers go --------------------------------------------------------

  /** Control code 1010, address pins low. */
  const COMM_ADDR: bv16 := 0x50

  function DeviceAddress(reg: bv16): bv16 {
    COMM_ADDR | (reg >> 8)
  }

  function WordByte(reg: bv16): bv8 {
    ((reg * 2) & 0xFF) as bv8
  }

  function WriteRequest(reg: bv16, value: bv16): Request {
    Write(DeviceAddress(reg), WordByte(reg), [High(value), Low(value)])
  }

  function ReadRequest(reg: bv16): Request {
    Read(DeviceAddress(reg), WordByte(reg), 2)
  }

  // ---- the device, told only what is seen on the bus ------------------------------------------

  /** A cell: one of two blocks of 256 bytes, and the byte within it. */
  datatype Cell = Cell(high: bool, byte: bv8)

  datatype Mode = Resting | Addressed | Pointing | Storing | Serving

  datatype Device = Device(memory: map<Cell, bv8>, mode: Mode, at: Cell)

  function Stored(memory: map<Cell, bv8>, at: Cell): bv8 {
    if at in memory then memory[at] else 0xFF
  }

  /** Writing advances within a page of 16 bytes. */
  function NextInPage(at: Cell): Cell {
    at.(byte := (at.byte & 0xF0) | ((at.byte + 1) & 0x0F))
  }

  /** The parts of an address byte: control code, block and direction. */
  predicate Mine(b: bv8) {
    b & 0xFC == 0xA0
  }

  predicate UpperBlock(b: bv8) {
    b & 2 != 0
  }

  predicate Reads(b: bv8) {
    b & 1 != 0
  }

  function Notice(d: Device, e: Event): Device {
    match e
    case Start => d.(mode := Addressed)
    case Stop => d.(mode := Resting)
    case Broken => d.(mode := Resting)
    case Byte(b, _) =>
      match d.mode
      case Resting => d
      case Addressed =>
        if !Mine(b) then d.(mode := Resting)
        else d.(mode := if Reads(b) then Serving else Pointing, at := d.at.(high := UpperBlock(b)))
      case Pointing => d.(mode := Storing, at := d.at.(byte := b))
      case Storing => d.(memory := d.memory[d.at := b], at := NextInPage(d.at))
      case Serving => d.(at := d.at.(byte := d.at.byte + 1))
  }

  /** A device that held `boot` when the bus was first used, after everything seen on it since. */
  function DeviceAfter(boot: map<Cell, bv8>, events: seq<Event>): Device {
    if events == [] then Device(boot, Resting, Cell(false, 0))
    else Notice(DeviceAfter(boot, events[..|events| - 1]), events[|events| - 1])
  }

  function NoticeAll(d: Device, events: seq<Event>): Device
    decreases events
  {
    if events == [] then d else NoticeAll(Notice(d, events[0]), events[1..])
  }

  lemma {:induction false} AfterAdds(boot: map<Cell, bv8>, events: seq<Event>, more: seq<Event>)
    ensures DeviceAfter(boot, events + more) == NoticeAll(DeviceAfter(boot, events), more)
    decreases more
  {
    hide Notice;
    if more == [] {
      assert events + more == events;
    } else {
      AfterAdds(boot, events + [more[0]], more[1..]);
      assert events + [more[0]] + more[1..] == events + more;
      assert (events + [more[0]])[..|events|] == events;
    }
  }

  // ---- registers and cells --------------------------------------------------------------------

  /** The upper byte of the register is or-ed into the device address; this device still answers if bits 9, 10, 11
      and 13 are clear. */
  predicate Reached(reg: bv16) {
    reg & 0x2E00 == 0
  }

  function CellOf(reg: bv16): Cell {
    Cell((reg >> 8) & 1 != 0, WordByte(reg))
  }

  /** The cell of the low byte, behind that of the high byte. */
  function LowCell(reg: bv16): Cell {
    CellOf(reg).(byte := WordByte(reg) + 1)
  }

  /** The registers agree in bits 0 to 6 and in bit 8. */
  predicate SameWord(a: bv16, b: bv16) {
    a & 0x17F == b & 0x17F
  }

  /** The 16-bit word the driver keeps under register `reg`. */
  function WordAt(memory: map<Cell, bv8>, reg: bv16): bv16 {
    Word(Stored(memory, CellOf(reg)), Stored(memory, LowCell(reg)))
  }

  /** Two registers live in the same cells exactly when they agree in those bits, because the byte address is
      truncated to eight bits while the block bit comes from bit 8. */
  lemma CellsMeet(a: bv16, b: bv16)
    ensures CellOf(a) == CellOf(b) <==> SameWord(a, b)
    ensures LowCell(a) == LowCell(b) <==> SameWord(a, b)
    ensures CellOf(a) != LowCell(b)
  {
  }

  lemma AddressBits(reg: bv16)
    ensures var w := AddressByte(DeviceAddress(reg), 0);
      (Mine(w) <==> Reached(reg)) && !Reads(w) && UpperBlock(w) == CellOf(reg).high
    ensures var r := AddressByte(DeviceAddress(reg), 1);
      (Mine(r) <==> Reached(reg)) && Reads(r) && UpperBlock(r) == CellOf(reg).high
  {
  }

  lemma NextIsLow(reg: bv16)
    ensures NextInPage(CellOf(reg)) == LowCell(reg) && CellOf(reg).byte == WordByte(reg)
  {
  }

  // ---- what a transfer does to the memory -----------------------------------------------------

  /** The wire form of a word write. */
  function WriteShown(reg: bv16, value: bv16): seq<Event> {
    [Start, Byte(AddressByte(DeviceAddress(reg), 0), true), Byte(WordByte(reg), true),
     Byte(High(value), true), Byte(Low(value), true), Stop]
  }

  function ReadShown(reg: bv16, hi: bv8, lo: bv8): seq<Event> {
    [Start, Byte(AddressByte(DeviceAddress(reg), 0), true), Byte(WordByte(reg), true),
     Start, Byte(AddressByte(DeviceAddress(reg), 1), true), Byte(hi, true), Byte(lo, false), Stop]
  }

  lemma OneNoticed(d: Device, w: seq<Event>, k: nat)
    requires k < |w|
    ensures NoticeAll(d, w[k..]) == NoticeAll(Notice(d, w[k]), w[k + 1..])
    ensures k + 1 == |w| ==> NoticeAll(d, w[k..]) == Notice(d, w[k])
  {
    hide Notice;
  }

  lemma WriteNoticed(d: Device, reg: bv16, value: bv16)
    ensures NoticeAll(d, WriteShown(reg, value)).memory
      == if Reached(reg) then d.memory[CellOf(reg) := High(value)][LowCell(reg) := Low(value)] else d.memory
  {
    hide AddressByte, DeviceAddress, High, Low, NextInPage, WordByte, CellOf, LowCell, Mine, Reads, UpperBlock, Reached;
    AddressBits(reg);
    NextIsLow(reg);
    var w := WriteShown(reg, value);
    var d1 := Notice(d, w[0]);
    var d2 := Notice(d1, w[1]);
    var d3 := Notice(d2, w[2]);
    var d4 := Notice(d3, w[3]);
    assert NoticeAll(d, w) == NoticeAll(d1, w[1..]);
    OneNoticed(d1, w, 1);
    OneNoticed(d2, w, 2);
    OneNoticed(d3, w, 3);
    OneNoticed(d4, w, 4);
    OneNoticed(Notice(d4, w[4]), w, 5);
  }

  /** Reading changes nothing. */
  lemma ReadNoticed(d: Device, reg: bv16, hi: bv8, lo: bv8)
    ensures NoticeAll(d, ReadShown(reg, hi, lo)).memory == d.memory
  {
    hide AddressByte, DeviceAddress, WordByte, NextInPage, CellOf, Mine, Reads, UpperBlock, Reached;
    AddressBits(reg);
    var w := ReadShown(reg, hi, lo);
    var d1 := Notice(d, w[0]);
    var d2 := Notice(d1, w[1]);
    var d3 := Notice(d2, w[2]);
    var d4 := Notice(d3, w[3]);
    var d5 := Notice(d4, w[4]);
    var d6 := Notice(d5, w[5]);
    assert NoticeAll(d, w) == NoticeAll(d1, w[1..]);
    OneNoticed(d1, w, 1);
    OneNoticed(d2, w, 2);
    OneNoticed(d3, w, 3);
    OneNoticed(d4, w, 4);
    OneNoticed(d5, w, 5);
    OneNoticed(d6, w, 6);
    OneNoticed(Notice(d6, w[6]), w, 7);
  }

  /** A word write to register `a` changes what register `b` shows. */
  predicate Hits(a: bv16, b: bv16) {
    Reached(a) && SameWord(a, b)
  }

  /** Once a word write has been seen, every register holds what it held, except those that share the written cells. */
  lemma WriteEffect(boot: map<Cell, bv8>, events: seq<Event>, reg: bv16, value: bv16, other: bv16)
    ensures var after := DeviceAfter(boot, events + WriteShown(reg, value)).memory;
      WordAt(after, other) == if Hits(reg, other) then value else WordAt(DeviceAfter(boot, events).memory, other)
  {
    hide AddressByte, DeviceAddress, High, Low, CellOf, LowCell, WordByte, NextInPage, NoticeAll, Notice,
         WriteShown, SameWord, Word, Reached;
    var d := DeviceAfter(boot, events);
    AfterAdds(boot, events, WriteShown(reg, value));
    WriteNoticed(d, reg, value);
    CellsMeet(reg, other);
    CellsMeet(other, reg);
    Halves(value);
  }

  /** Writing `value` to register `a` of a device holding `boot` leaves register `b` as it was. */
  predicate Spares(a: bv16, b: bv16, boot: map<Cell, bv8>, value: bv16) {
    WordAt(DeviceAfter(boot, WriteShown(a, value)).memory, b) == WordAt(boot, b)
  }

  /** Writing one register always leaves another alone exactly when it does not hit it. */
  lemma WordsIndependent(a: bv16, b: bv16)
    ensures (forall boot, value :: Spares(a, b, boot, value)) <==> !Hits(a, b)
  {
    hide WordAt, WriteShown, Notice, Hits;
    forall boot, value
      ensures Spares(a, b, boot, value) <==> (Hits(a, b) ==> value == WordAt(boot, b))
    {
      WriteEffect(boot, [], a, value, b);
      assert [] + WriteShown(a, value) == WriteShown(a, value);
      assert DeviceAfter(boot, []) == Device(boot, Resting, Cell(false, 0));
    }
    if Hits(a, b) {
      var boot: map<Cell, bv8> := map[];
      assert !Spares(a, b, boot, 0) || !Spares(a, b, boot, 1);
    }
  }

  /** Below 256 that is to agree modulo 128. */
  lemma LowRegisters(a: bv16, b: bv16)
    requires a < 256 && b < 256
    ensures Hits(a, b) <==> a & 0x7F == b & 0x7F
  {
  }

  // ---- the bytes on the bus in numbers ---------------------------------------------------------

  lemma WordByteIs(reg: bv16)
    ensures WordByte(reg) == Doubled(Low(reg))
  {
  }

  /** The byte address is twice the register, as far as a byte holds it. */
  lemma WordByteNumber(reg: bv16)
    ensures FromByte(WordByte(reg)) == 2 * Value16(reg) % 256
  {
    hide WordByte, Low, High, FromByte, Value16, Doubled;
    WordByteIs(reg);
    HalvesNumber(reg);
    DoubleNumber(Low(reg));
    DoubleOfSum(FromByte(High(reg)), FromByte(Low(reg)));
  }

  /** The address bytes of the two blocks the device has, for writing and for reading. */
  lemma AddressNumbers(reg: bv16)
    ensures reg < 0x100 ==>
      AddressByte(DeviceAddress(reg), 0) == 0xA0 && AddressByte(DeviceAddress(reg), 1) == 0xA1
    ensures 0x100 <= reg < 0x200 ==>
      AddressByte(DeviceAddress(reg), 0) == 0xA2 && AddressByte(DeviceAddress(reg), 1) == 0xA3
  {
  }

  /** A shown byte that was acknowledged. */
  predicate Acked(e: Event, n: nat) {
    e.Byte? && e.ack && FromByte(e.value) == n
  }

  /** A word write shows START, the device, twice the register, the quotient and the remainder of the value by 256,
      and STOP. */
  lemma WriteNumbers(reg: bv16, value: bv16)
    ensures var w := WriteShown(reg, value);
      && |w| == 6 && w[0] == Start && w[5] == Stop
      && (reg < 0x100 ==> Acked(w[1], 0xA0)) && Acked(w[2], 2 * Value16(reg) % 256)
      && Acked(w[3], Value16(value) / 256) && Acked(w[4], Value16(value) % 256)
  {
    hide AddressByte, DeviceAddress, WordByte, High, Low, Value16;
    AddressNumbers(reg);
    WordByteNumber(reg);
    HalvesNumber(value);
  }

  /** A word read shows START, the device, twice the register, START, the device again to be read from, the two bytes it
      drives, of which the last is refused, and STOP. */
  lemma ReadNumbers(reg: bv16, hi: bv8, lo: bv8)
    ensures var w := ReadShown(reg, hi, lo);
      && |w| == 8 && w[0] == w[3] == Start && w[7] == Stop
      && (reg < 0x100 ==> Acked(w[1], 0xA0) && Acked(w[4], 0xA1)) && Acked(w[2], 2 * Value16(reg) % 256)
      && Acked(w[5], FromByte(hi)) && w[6] == Byte(lo, false)
  {
    hide AddressByte, DeviceAddress, WordByte, Value16;
    AddressNumbers(reg);
    WordByteNumber(reg);
  }
}
