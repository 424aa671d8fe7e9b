/** The index-and-full-flag queues of drivers/uart1.c and the driver around them. */
module Uart {
  import opened Common
  import opened UartModel

  /** The cells from the read index round to the write index: all of them when the queue is full. */
  function Window(cells: seq<bv8>, read: nat, write: nat, full: bool): (s: seq<bv8>)
    requires read < |cells| && write < |cells| && (full ==> read == write)
    ensures |s| <= |cells| && (full <==> |s| == |cells|) && (|s| == 0 <==> read == write && !full)
  {
    if full || write < read then cells[read..] + cells[..write] else cells[read..write]
  }

  function Wrapped(i: nat, n: nat): (j: nat)
    requires i < n
    ensures j < n && j == if i + 1 == n then 0 else i + 1
  {
    (i + 1) % n
  }

  lemma WindowGrows(cells: seq<bv8>, read: nat, write: nat, b: bv8)
    requires read < |cells| && write < |cells|
    ensures var next := Wrapped(write, |cells|);
      Window(cells[write := b], read, next, next == read) == Window(cells, read, write, false) + [b]
  {
    var next, more := Wrapped(write, |cells|), cells[write := b];
    hide Wrapped;
    if write < read {
      assert next == write + 1 && more[..next] == cells[..write] + [b] && more[read..] == cells[read..];
      var first, middle, last := cells[read..], cells[..write], [b];
      assert first + (middle + last) == (first + middle) + last;
    } else if next == 0 {
      assert more[read..] == cells[read..write] + [b] && more[..0] == [];
    } else {
      assert more[read..next] == cells[read..write] + [b];
    }
  }

  lemma WindowShrinks(cells: seq<bv8>, read: nat, write: nat, full: bool)
    requires read < |cells| && write < |cells| && (full ==> read == write) && (full || read != write)
    ensures Window(cells, read, write, full)
      == [cells[read]] + Window(cells, Wrapped(read, |cells|), write, false)
  {
    var next := Wrapped(read, |cells|);
    hide Wrapped;
    if full || write < read {
      assert cells[read..] == [cells[read]] + cells[read + 1..];
      if next == 0 {
        assert cells[read + 1..] == [] && cells[0..write] == cells[..write];
      } else {
        var first, middle, last := [cells[read]], cells[next..], cells[..write];
        assert (first + middle) + last == first + (middle + last);
      }
    } else {
      assert next == read + 1;
      assert cells[read..write] == [cells[read]] + cells[next..write];
    }
  }

  /** A bounded queue in a fixed array: `RxEnqueue`/`RxDequeue` and `TxEnqueue`/`TxDequeue` alike. */
  class Ring {
    const cells: array<bv8>
    var readIndex: nat
    var writeIndex: nat
    var full: bool

    ghost predicate Valid()
      reads this
    {
      readIndex < cells.Length && writeIndex < cells.Length && (full ==> readIndex == writeIndex)
    }

    /** The queued bytes, oldest first. */
    ghost function Contents(): (s: seq<bv8>)
      requires Valid()
      reads this, cells
      ensures |s| <= cells.Length && (full <==> |s| == cells.Length)
    {
      Window(cells[..], readIndex, writeIndex, full)
    }

    constructor (size: nat)
      requires size > 0
      ensures Valid() && fresh(cells) && cells.Length == size && Contents() == []
    {
      cells := new bv8[size](i => 0);
      readIndex, writeIndex, full := 0, 0, false;
    }

    method Enqueue(b: bv8) returns (ok: bool)
      requires Valid()
      modifies this, cells
      ensures Valid() && ok == (|old(Contents())| < cells.Length)
      ensures Contents() == if ok then old(Contents()) + [b] else old(Contents())
    {
      hide Window;
      ok := false;
      if !full {
        ghost var was := cells[..];
        WindowGrows(was, readIndex, writeIndex, b);
        cells[writeIndex] := b;
        assert cells[..] == was[writeIndex := b];
        writeIndex := Wrapped(writeIndex, cells.Length);
        if writeIndex == readIndex {
          full := true;
        }
        ok := true;
      }
    }

    method Dequeue() returns (ok: bool, b: bv8)
      requires Valid()
      modifies this
      ensures Valid() && ok == (old(Contents()) != [])
      ensures if ok then [b] + Contents() == old(Contents()) else Contents() == old(Contents())
    {
      hide Window;
      ok, b := false, 0;
      if readIndex != writeIndex || full {
        WindowShrinks(cells[..], readIndex, writeIndex, full);
        b := cells[readIndex];
        readIndex := Wrapped(readIndex, cells.Length);
        full := false;
        ok := true;
      }
    }
  }

  class Driver {
    const tx: Ring
    var transmissionComplete: bool

    // The peripheral.
    var txeEnabled: bool
    var data: Option<bv8>
    var shift: Option<bv8>
    var tcFlag: bool
    ghost var line: seq<bv8>

    ghost predicate Valid()
      reads this, tx
    {
      tx.Valid() && tx.cells.Length == TX_QUEUE_SIZE
    }

    ghost function State(): Tx
      requires Valid()
      reads this, tx, tx.cells
    {
      Tx(tx.Contents(), txeEnabled, transmissionComplete, data, shift, tcFlag, line)
    }

    constructor ()
      ensures Valid() && fresh(tx) && fresh(tx.cells)
      ensures State() == Tx([], false, false, None, None, false, [])
    {
      tx := new Ring(TX_QUEUE_SIZE);
      transmissionComplete, txeEnabled, tcFlag := false, false, false;
      data, shift, line := None, None, [];
    }

    /** `UART1_SendByte`, with the interrupt masked. */
    method SendByte(b: bv8) returns (ok: bool)
      requires Valid()
      modifies this, tx, tx.cells
      ensures Valid() && State() == Next(old(State()), Send(b))
      ensures ok == (|old(tx.Contents())| < TX_QUEUE_SIZE)
    {
      ok := tx.Enqueue(b);
      if ok {
        transmissionComplete := false;
        txeEnabled := true;
      }
    }

    /** The transmit branches of `USART1_IRQHandler`. */
    method Interrupt()
      requires Valid()
      modifies this, tx
      ensures Valid() && State() == Next(old(State()), Step.Interrupt)
    {
      if txeEnabled && data == None {
        var ok, b := tx.Dequeue();
        if ok {
          data := Some(b);
          tcFlag := false;
          assert old(tx.Contents())[0] == b && old(tx.Contents())[1..] == tx.Contents();
        } else {
          txeEnabled := false;
        }
      } else if tcFlag {
        transmissionComplete := true;
        tcFlag := false;
      }
    }

    /** The hardware: the data register or the shift register acts. */
    method Hardware(load: bool)
      requires Valid()
      modifies this`data, this`shift, this`tcFlag, this`line
      ensures Valid() && State() == Next(old(State()), if load then Load else Shifted)
    {
      if load {
        if data.Some? && shift.None? {
          shift, data := data, None;
        }
      } else if shift.Some? {
        line := line + [shift.value];
        shift := None;
        tcFlag := tcFlag || data.None?;
      }
    }

    /** Interrupts and hardware between two instructions, in any order and number. */
    method Meanwhile(events: seq<Event>)
      requires Valid()
      modifies this, tx
      ensures Valid() && State() == Run(old(State()), events)
    {
      hide Next;
      ghost var before := State();
      assert events[0..] == events;
      for i := 0 to |events|
        invariant Valid() && Run(before, events) == Run(State(), events[i..])
      {
        assert events[i..][1..] == events[i + 1..];
        match events[i] {
          case Interrupt => Interrupt();
          case Load => Hardware(true);
          case Shifted => Hardware(false);
        }
      }
    }

    /** One byte is offered, and then interrupts and hardware act for a while. */
    method Offer(b: bv8, events: seq<Event>, ghost before: Tx, ghost steps: seq<Step>) returns (ghost longer: seq<Step>)
      requires Valid() && State() == Run(before, steps)
      modifies this, tx, tx.cells
      ensures Valid() && State() == Run(before, longer) && Offered(longer) == Offered(steps) + [b]
    {
      hide Next, Run, Offered;
      var ok := SendByte(b);
      RunOne(before, steps, Send(b));
      longer := steps + [Send(b)];
      Meanwhile(events);
      RunMore(before, longer, events);
      NoneOffered(events);
      longer := longer + events;
    }

    /** `ModbusSend`: each byte is offered once, and a refused byte is not offered again. After the i-th byte the
        interrupts and the hardware do `events(i)`. */
    method SendMessage(message: seq<bv8>, events: nat -> seq<Event>)
      requires Valid() && Sound(State()) && tx.Contents() == [] && 0 < |message| <= 256
      modifies this, tx, tx.cells
      ensures Valid() && Sound(State()) && transmissionComplete
      ensures line == Accepted(old(State())) + message
    {
      hide Next, Run, Offered, Sound, Pending, Accepted;
      ghost var before := State();
      ghost var steps: seq<Step> := [];
      Nothing(before);
      for i := 0 to |message|
        invariant Valid() && State() == Run(before, steps) && Offered(steps) == message[..i]
      {
        steps := Offer(message[i], events(i), before, steps);
      }
      assert message[..|message|] == message;
      NothingLost(before, steps);
      Wait();
    }

    /** The closing loop of `ModbusSend`. It ends because the hardware and the interrupt go on. */
    method Wait()
      requires Valid() && Sound(State()) && Pending(State())
      modifies this, tx
      ensures Valid() && Sound(State()) && transmissionComplete
      ensures line == Accepted(old(State()))
    {
      hide Accepted;
      while !transmissionComplete
        invariant Valid() && Sound(State()) && Pending(State()) && Accepted(State()) == old(Accepted(State()))
        decreases Work(State())
      {
        ghost var s := State();
        CompletionApproaches(s);
        StepKeepsSound(s, Step.Interrupt);
        StepKeepsSound(s, Load);
        StepKeepsSound(s, Shifted);
        if (txeEnabled && data == None) || tcFlag {
          Interrupt();
        } else if data.Some? && shift.None? {
          Hardware(true);
        } else {
          Hardware(false);
        }
      }
      CompleteLine(State());
    }
  }

  lemma Nothing(t: Tx)
    ensures Run(t, []) == t && Offered([]) == []
  {
  }

  lemma OneMove(t: Tx, s: Step)
    ensures Run(t, [s]) == Next(t, s)
  {
  }

  lemma {:induction false} RunMore(t: Tx, a: seq<Step>, b: seq<Step>)
    ensures Run(t, a + b) == Run(Run(t, a), b) && Offered(a + b) == Offered(a) + Offered(b)
    decreases a
  {
    hide Next;
    if a == [] {
      assert a + b == b;
    } else {
      RunMore(Next(t, a[0]), a[1..], b);
      assert (a + b)[1..] == a[1..] + b;
      var first, middle, last := if a[0].Send? then [a[0].b] else [], Offered(a[1..]), Offered(b);
      assert first + (middle + last) == (first + middle) + last;
    }
  }

  lemma {:induction false} NoneOffered(steps: seq<Step>)
    requires forall i :: 0 <= i < |steps| ==> !steps[i].Send?
    ensures Offered(steps) == []
    decreases steps
  {
    if steps != [] {
      NoneOffered(steps[1..]);
    }
  }

  lemma RunOne(t: Tx, a: seq<Step>, s: Step)
    ensures Run(t, a + [s]) == Next(Run(t, a), s)
    ensures Offered(a + [s]) == Offered(a) + if s.Send? then [s.b] else []
  {
    hide Next;
    RunMore(t, a, [s]);
    OneMove(Run(t, a), s);
    assert [s][1..] == [];
  }
}
