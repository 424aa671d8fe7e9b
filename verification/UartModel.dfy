/** The transmit path of drivers/uart1.c against a USART: software queue, data register, shift
    register and the two transmit interrupts, under any schedule. */
module UartModel {
  import opened Common

  const TX_QUEUE_SIZE := 256

  /** `txe` is whether the data-register-empty interrupt is enabled, `tc` the pending
      transmission-complete flag, `complete` the driver's variable, `line` what has been shifted out. */
  datatype Tx = Tx(queue: seq<bv8>, txe: bool, complete: bool,
                   data: Option<bv8>, shift: Option<bv8>, tc: bool, line: seq<bv8>)

  datatype Step = Send(b: bv8) | Interrupt | Load | Shifted

  /** What happens beside the driver's calls. */
  type Event = s: Step | !s.Send? witness Load

  /** `UART1_SendByte`: a byte offered to a full queue is refused. */
  function DoSend(t: Tx, b: bv8): Tx {
    if |t.queue| < TX_QUEUE_SIZE then t.(queue := t.queue + [b], complete := false, txe := true) else t
  }

  /** The transmit branches of `USART1_IRQHandler`. Writing the data register clears `tc`. */
  function DoInterrupt(t: Tx): Tx {
    if t.txe && t.data == None then
      if t.queue != [] then t.(data := Some(t.queue[0]), queue := t.queue[1..], tc := false)
      else t.(txe := false)
    else if t.tc then t.(complete := true, tc := false)
    else t
  }

  /** The hardware: a byte moves to the shift register, or leaves on the line. */
  function Next(t: Tx, s: Step): Tx {
    match s
    case Send(b) => DoSend(t, b)
    case Interrupt => DoInterrupt(t)
    case Load => if t.data.Some? && t.shift.None? then t.(shift := t.data, data := None) else t
    case Shifted =>
      if t.shift.None? then t
      else t.(line := t.line + [t.shift.value], shift := None, tc := t.tc || t.data.None?)
  }

  function Listed(o: Option<bv8>): seq<bv8> {
    if o.Some? then [o.value] else []
  }

  /** Everything accepted so far, in the order it will appear on the line. */
  function Accepted(t: Tx): seq<bv8> {
    t.line + Listed(t.shift) + Listed(t.data) + t.queue
  }

  /** A non-empty queue keeps its interrupt enabled; the driver says complete only when nothing is left. */
  predicate Sound(t: Tx) {
    && |t.queue| <= TX_QUEUE_SIZE
    && (t.queue != [] ==> t.txe)
    && (t.tc ==> t.data == None && t.shift == None)
    && (t.complete ==> t.queue == [] && t.data == None && t.shift == None && !t.tc)
  }

  /** Something is still on its way, so the driver will be told. */
  predicate Pending(t: Tx) {
    t.complete || t.tc || t.shift != None || t.data != None || t.queue != []
  }

  lemma StepKeepsSound(t: Tx, s: Step)
    requires Sound(t)
    ensures Sound(Next(t, s))
    ensures Pending(t) || s.Send? ==> Pending(Next(t, s))
    ensures Accepted(Next(t, s)) == if s.Send? && |t.queue| < TX_QUEUE_SIZE then Accepted(t) + [s.b] else Accepted(t)
  {
  }

  function Run(t: Tx, steps: seq<Step>): Tx
    decreases steps
  {
    if steps == [] then t else Run(Next(t, steps[0]), steps[1..])
  }

  /** The bytes a schedule sends, in order. */
  function Offered(steps: seq<Step>): seq<bv8>
    decreases steps
  {
    if steps == [] then []
    else (if steps[0].Send? then [steps[0].b] else []) + Offered(steps[1..])
  }

  /** While no more bytes are offered than the queue has room for, none is refused or reordered,
      whatever the interrupts and the hardware do in between; and what has been called complete is. */
  lemma {:induction false} NothingLost(t: Tx, steps: seq<Step>)
    requires Sound(t) && |t.queue| + |Offered(steps)| <= TX_QUEUE_SIZE
    ensures var u := Run(t, steps);
      && Sound(u) && Accepted(u) == Accepted(t) + Offered(steps)
      && (u.complete ==> u.line == Accepted(t) + Offered(steps))
      && (Pending(t) || Offered(steps) != [] ==> Pending(u))
    decreases steps
  {
    hide Next, Accepted, Sound, Pending;
    if steps == [] {
      assert Accepted(t) + [] == Accepted(t);
    } else {
      var u := Next(t, steps[0]);
      StepKeepsSound(t, steps[0]);
      QueueShrinks(t, steps[0]);
      NothingLost(u, steps[1..]);
      var first := if steps[0].Send? then [steps[0].b] else [];
      assert Accepted(u) == Accepted(t) + first;
      assert Accepted(t) + first + Offered(steps[1..]) == Accepted(t) + Offered(steps);
    }
    if Run(t, steps).complete {
      CompleteLine(Run(t, steps));
    }
  }

  lemma QueueShrinks(t: Tx, s: Step)
    ensures |Next(t, s).queue| <= |t.queue| + if s.Send? then 1 else 0
  {
  }

  lemma CompleteLine(t: Tx)
    requires Sound(t) && t.complete
    ensures t.line == Accepted(t)
  {
  }

  /** From an empty queue, a message survives every schedule exactly when it has at most 256 bytes:
      a longer one is cut when no interrupt comes in time. */
  lemma MessageSurvivesIff(t: Tx, n: nat)
    requires Sound(t) && t.queue == []
    ensures (forall steps :: |Offered(steps)| == n ==> Survives(t, steps)) <==> n <= 256
  {
    if n <= TX_QUEUE_SIZE {
      forall steps | |Offered(steps)| == n
        ensures Survives(t, steps)
      {
        NothingLost(t, steps);
      }
    } else {
      var steps := seq(n, i => Send(0));
      AllSent(steps);
      BurstFills(t, steps);
      assert |Accepted(Run(t, steps))| == |Accepted(t)| + TX_QUEUE_SIZE;
      assert !Survives(t, steps);
    }
  }

  predicate Survives(t: Tx, steps: seq<Step>) {
    Accepted(Run(t, steps)) == Accepted(t) + Offered(steps)
  }

  lemma {:induction false} AllSent(steps: seq<Step>)
    requires forall i :: 0 <= i < |steps| ==> steps[i].Send?
    ensures |Offered(steps)| == |steps|
    decreases steps
  {
    if steps != [] {
      AllSent(steps[1..]);
    }
  }

  /** Bytes offered with nothing in between: the queue takes what fits. */
  lemma {:induction false} BurstFills(t: Tx, steps: seq<Step>)
    requires forall i :: 0 <= i < |steps| ==> steps[i].Send?
    requires |t.queue| <= TX_QUEUE_SIZE <= |t.queue| + |steps|
    ensures |Accepted(Run(t, steps))| == |Accepted(t)| + TX_QUEUE_SIZE - |t.queue|
    decreases steps
  {
    if steps != [] {
      if |t.queue| < TX_QUEUE_SIZE {
        BurstFills(Next(t, steps[0]), steps[1..]);
      } else {
        assert Next(t, steps[0]) == t;
        BurstFills(t, steps[1..]);
      }
    }
  }

  // ---- the wait for completion ends ---------------------------------------------------------

  function Work(t: Tx): nat {
    4 * |t.queue| + (if t.data.Some? then 3 else 0) + (if t.shift.Some? then 2 else 0)
      + (if t.tc then 1 else 0) + (if t.txe then 1 else 0)
  }

  /** Until the driver is told, the hardware or an interrupt can act; and whatever acts leaves less to do. */
  lemma CompletionApproaches(t: Tx)
    requires Sound(t) && Pending(t) && !t.complete
    ensures Next(t, Interrupt) != t || Next(t, Load) != t || Next(t, Shifted) != t
    ensures forall s: Step :: !s.Send? && Next(t, s) != t ==> Work(Next(t, s)) < Work(t)
  {
  }
}
