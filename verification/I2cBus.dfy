/** The two-wire bus as UM10204 describes it, independently of who drives it: line samples,
    a monitor that recovers the transaction from the samples alone, and open-drain pins. */
module I2cBus {
  import opened BitNumbers
  import opened Common
  import opened Octets

  /** The levels of the two lines after one pin write. */
  datatype Sample = Sample(sda: bool, sck: bool)

  /** Every sample of a run, latest last. */
  datatype Trace = Quiet | After(past: Trace, now: Sample)

  /** What a bystander sees on the bus. `Broken` is a START or STOP inside a byte. */
  datatype Event = Start | Byte(value: bv8, ack: bool) | Stop | Broken

  /** `high` is the level SDA had when SCK last rose, while that clock pulse can still be a data bit. */
  datatype Monitor = Monitor(prev: Sample, high: Option<bool>, bits: seq<bool>, events: seq<Event>)

  /** Section 3.1.4: SDA moving while SCK is high is START or STOP. Section 3.1.3: every other
      pulse is one data bit. Sections 3.1.5 and 3.1.6: eight bits, most significant first, then
      an acknowledge bit that is low for ACK. */
  function Observe(m: Monitor, s: Sample): Monitor {
    if m.prev.sck && s.sck then
      if m.prev.sda == s.sda then m.(prev := s)
      else
        var condition := if s.sda then Stop else Start;
        Monitor(s, None, [], m.events + (if m.bits == [] then [condition] else [Broken, condition]))
    else if !m.prev.sck && s.sck then m.(prev := s, high := Some(s.sda))
    else if m.prev.sck && !s.sck && m.high.Some? then
      var bits := m.bits + [m.high.value];
      if |bits| == 9 then Monitor(s, None, [], m.events + [Byte(ByteOf(bits[..8]), !bits[8])])
      else Monitor(s, None, bits, m.events)
    else m.(prev := s)
  }

  /** The monitor's view of a whole run that began on an idle bus. */
  function Decode(t: Trace): Monitor {
    match t
    case Quiet => Monitor(Sample(true, true), None, [], [])
    case After(past, now) => Observe(Decode(past), now)
  }

  /** The byte whose bits are given most significant first. */
  function ByteOf(bits: seq<bool>): bv8
    requires |bits| == 8
  {
      (if bits[0] then 0x80 else 0) | (if bits[1] then 0x40 else 0)
    | (if bits[2] then 0x20 else 0) | (if bits[3] then 0x10 else 0)
    | (if bits[4] then 0x08 else 0) | (if bits[5] then 0x04 else 0)
    | (if bits[6] then 0x02 else 0) | (if bits[7] then 0x01 else 0)
  }

  /** The slave drives SDA low when false. It may change its level only when SCK falls, so its
      level is a function of how many times SCK has fallen. */
  type Slave = nat -> bool

  /** The master's two open-drain outputs and the history of the lines. */
  datatype Pins = Pins(sda: bool, sck: bool, falls: nat, trace: Trace) {

    /** The level of the SDA line: wired-AND of master and slave. */
    predicate Line(slave: Slave) {
      sda && slave(falls)
    }

    function Logged(slave: Slave): Pins {
      this.(trace := After(trace, Sample(Line(slave), sck)))
    }

    function WriteSda(level: bool, slave: Slave): Pins {
      this.(sda := level).Logged(slave)
    }

    function WriteSck(level: bool, slave: Slave): Pins {
      this.(sck := level, falls := if sck && !level then falls + 1 else falls).Logged(slave)
    }
  }

  // ---- one nine-bit frame, half a clock pulse at a time -----------------------------------------

  /** After `t` half pulses of a frame whose line levels are `w`, with `events` seen before it. */
  predicate Shows(m: Monitor, events: seq<Event>, w: seq<bool>, t: nat)
    requires |w| == 9 && t <= 18
  {
    && m.events == events
    && m.bits == w[..if t == 0 then 0 else (t - 1) / 2]
    && (t == 0 || m.prev.sda == w[(t - 1) / 2])
    && m.prev.sck == (t != 0 && t % 2 == 0)
    && m.high == if m.prev.sck then Some(m.prev.sda) else None
  }

  /** SCK falls and SDA takes the next bit. */
  lemma LowHalf(p: Pins, level: bool, slave: Slave, events: seq<Event>, w: seq<bool>, j: nat)
    requires |w| == 9 && j <= 8 && Shows(Decode(p.trace), events, w, 2 * j)
    requires p.sck == (j != 0)
    requires w[j] == (level && slave(if p.sck then p.falls + 1 else p.falls))
    ensures var q := p.WriteSck(false, slave).WriteSda(level, slave);
      && Shows(Decode(q.trace), events, w, 2 * j + 1)
      && q.sda == level && !q.sck && q.falls == if p.sck then p.falls + 1 else p.falls
  {
    var fallen := p.WriteSck(false, slave);
    var m := Decode(p.trace);
    if j > 0 {
      assert w[..j] == w[..j - 1] + [w[j - 1]];
    }
    assert Decode(fallen.trace).bits == w[..j];
  }

  /** SCK rises with SDA held. */
  lemma HighHalf(p: Pins, slave: Slave, events: seq<Event>, w: seq<bool>, j: nat)
    requires |w| == 9 && j <= 8 && Shows(Decode(p.trace), events, w, 2 * j + 1)
    requires !p.sck && w[j] == p.Line(slave)
    ensures var q := p.WriteSck(true, slave);
      && Shows(Decode(q.trace), events, w, 2 * j + 2)
      && q.sda == p.sda && q.sck && q.falls == p.falls
  {
  }

  /** The clock falls once more and the byte is complete. */
  lemma FrameEnds(p: Pins, slave: Slave, events: seq<Event>, w: seq<bool>)
    requires |w| == 9 && Shows(Decode(p.trace), events, w, 18) && p.sck
    ensures var q := p.WriteSck(false, slave).WriteSda(false, slave);
      && Decode(q.trace) == Monitor(Sample(false, false), None, [], events + [Byte(ByteOf(w[..8]), !w[8])])
      && !q.sda && !q.sck && q.falls == p.falls + 1
  {
  }

  // ---- the conventions of the bus, in other words -----------------------------------------------

  /** SDA falling while SCK is high is a START and rising a STOP; SDA moving while SCK is low is nothing. */
  lemma ConditionsAre(bits: seq<bool>, events: seq<Event>, high: Option<bool>)
    ensures var m := Monitor(Sample(true, true), high, [], events);
      Observe(m, Sample(false, true)).events == events + [Start]
    ensures var m := Monitor(Sample(false, true), high, [], events);
      Observe(m, Sample(true, true)).events == events + [Stop]
    ensures var m := Monitor(Sample(true, false), high, bits, events);
      Observe(m, Sample(false, false)).events == events && Observe(m, Sample(false, false)).bits == bits
  {
  }

  lemma BitsSum(bits: seq<bool>)
    requires |bits| == 8
    ensures FromByte(ByteOf(bits)) ==
      (if bits[0] then 128 else 0) + (if bits[1] then 64 else 0) + (if bits[2] then 32 else 0)
      + (if bits[3] then 16 else 0) + (if bits[4] then 8 else 0) + (if bits[5] then 4 else 0)
      + (if bits[6] then 2 else 0) + if bits[7] then 1 else 0
  {
  }

  /** The first bit on the line is the most significant, and a byte is acknowledged by a low ninth bit. */
  lemma FirstBitIsHighest(bits: seq<bool>)
    requires |bits| == 8
    ensures FromByte(ByteOf(bits)) == BitsNumber(bits)
  {
    hide ByteOf, FromByte;
    BitsSum(bits);
    assert BitsNumber(bits[..0]) == 0;
    forall i | 0 <= i < 8
      ensures BitsNumber(bits[..i + 1]) == 2 * BitsNumber(bits[..i]) + if bits[i] then 1 else 0
    {
      assert bits[..i + 1][..i] == bits[..i];
    }
    assert bits[..8] == bits;
  }
}
