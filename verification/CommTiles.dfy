/** How the receive cycles of comm/inter_comm.cpp cut the register window into frames, with the
    configuration being read again before every step. */
module CommTiles {
  import opened CommModel

  /** `inter_comm_data_quan`, `inter_comm_frame_quan`, `curr_frame` and `inter_comm_read_in_process`. */
  datatype Cycle = Cycle(quantity: nat, frames: nat, current: nat, busy: bool)

  function FrameCount(q: nat): nat {
    q / RECEIVE_FRAME + (if q % RECEIVE_FRAME != 0 then 1 else 0)
  }

  predicate Tiled(y: Cycle) {
    1 <= y.quantity <= COUNT && y.frames == FrameCount(y.quantity) && y.current < y.frames
    && y.busy == (y.current > 0)
  }

  datatype Event = Configure(q: nat) | Read

  /** The settings keep the quantity between 1 and 125. */
  predicate Settable(e: Event) {
    e.Configure? ==> 1 <= e.q <= COUNT
  }

  /** First register and number of registers of the frame about to be read. */
  function Piece(y: Cycle): (nat, int) {
    var at := y.current * RECEIVE_FRAME;
    (at, if y.current == y.frames - 1 then y.quantity - at else RECEIVE_FRAME)
  }

  function Next(y: Cycle, e: Event): Cycle {
    match e
    case Configure(q) => if y.busy then y else y.(quantity := q, frames := FrameCount(q))
    case Read =>
      if y.current + 1 >= y.frames then y.(current := 0, busy := false)
      else y.(current := y.current + 1, busy := true)
  }

  /** In every state a read names registers of the window, and nothing leaves the tiled states. */
  lemma TilingKept(y: Cycle, e: Event)
    requires Tiled(y) && Settable(e)
    ensures Tiled(Next(y, e))
    ensures var (at, n) := Piece(y); 1 <= n <= RECEIVE_FRAME && at + n <= y.quantity
    ensures y.busy ==> e.Configure? ==> Next(y, e) == y
  {
  }

  /** The frames of quantity `q` from number `c` on. */
  function TilesFrom(q: nat, c: nat): seq<(nat, int)>
    decreases FrameCount(q) - c
  {
    if c >= FrameCount(q) then [] else [Piece(Cycle(q, FrameCount(q), c, c > 0))] + TilesFrom(q, c + 1)
  }

  function Reads(y: Cycle, run: seq<Event>): seq<(nat, int)>
    decreases run
  {
    if run == [] then []
    else (if run[0].Read? then [Piece(y)] else []) + Reads(Next(y, run[0]), run[1..])
  }

  function ReadCount(run: seq<Event>): nat
    decreases run
  {
    if run == [] then 0 else (if run[0].Read? then 1 else 0) + ReadCount(run[1..])
  }

  /** Once a cycle is under way its remaining frames are those of its own quantity, whatever the
      settings become meanwhile. */
  lemma {:induction false} CycleTiles(y: Cycle, run: seq<Event>)
    requires Tiled(y) && y.busy && (forall i :: 0 <= i < |run| ==> Settable(run[i]))
    requires ReadCount(run) == y.frames - y.current
    ensures Reads(y, run) == TilesFrom(y.quantity, y.current)
    decreases run
  {
    TilingKept(y, run[0]);
    var z := Next(y, run[0]);
    if run[0].Configure? {
      CycleTiles(z, run[1..]);
    } else if y.current + 1 < y.frames {
      CycleTiles(z, run[1..]);
    } else {
      NoReads(z, run[1..]);
    }
  }

  /** A whole cycle reads all the frames of the quantity it began with. */
  lemma WholeCycle(y: Cycle, run: seq<Event>)
    requires Tiled(y) && !y.busy && (forall i :: 0 <= i < |run| ==> Settable(run[i]))
    requires run != [] && run[0].Read? && ReadCount(run) == y.frames
    ensures Reads(y, run) == TilesFrom(y.quantity, 0)
  {
    var z := Next(y, run[0]);
    TilingKept(y, run[0]);
    assert TilesFrom(y.quantity, 0) == [Piece(y)] + TilesFrom(y.quantity, 1);
    if y.frames == 1 {
      NoReads(z, run[1..]);
    } else {
      CycleTiles(z, run[1..]);
    }
  }

  lemma {:induction false} NoReads(y: Cycle, run: seq<Event>)
    requires ReadCount(run) == 0
    ensures Reads(y, run) == []
    decreases run
  {
    if run != [] {
      NoReads(Next(y, run[0]), run[1..]);
    }
  }

  /** Number `k` of the frames of quantity `q`. */
  lemma {:induction false} TileAt(q: nat, c: nat, k: nat)
    requires c + k < FrameCount(q)
    ensures |TilesFrom(q, c)| == FrameCount(q) - c
    ensures TilesFrom(q, c)[k] == Piece(Cycle(q, FrameCount(q), c + k, c + k > 0))
    decreases FrameCount(q) - c
  {
    if c + 1 < FrameCount(q) {
      TileAt(q, c + 1, if k > 0 then k - 1 else 0);
    }
  }

  /** Frames of 32 registers, the last with what is left. */
  lemma TilesAre(q: nat, k: nat)
    requires 1 <= q <= 125 && 32 * k < q
    ensures |TilesFrom(q, 0)| == (q + 31) / 32
    ensures TilesFrom(q, 0)[k] == (32 * k, if 32 * (k + 1) <= q then 32 else q - 32 * k)
  {
    assert k < FrameCount(q);
    TileAt(q, 0, k);
  }

  predicate InPiece(p: (nat, int), i: nat) {
    p.0 <= i < p.0 + p.1
  }

  /** The frames of a cycle tile the window: every register is in exactly one, and no other is in any. */
  lemma TilesPartition(q: nat, i: nat)
    requires 1 <= q <= COUNT
    ensures (exists k :: 0 <= k < |TilesFrom(q, 0)| && InPiece(TilesFrom(q, 0)[k], i)) <==> i < q
    ensures forall j, k | 0 <= j < k < |TilesFrom(q, 0)| ::
      !(InPiece(TilesFrom(q, 0)[j], i) && InPiece(TilesFrom(q, 0)[k], i))
  {
    var tiles := TilesFrom(q, 0);
    TileAt(q, 0, 0);
    forall k: nat | k < |tiles|
      ensures InPiece(tiles[k], i) <==> i < q && k == i / RECEIVE_FRAME
    {
      TileAt(q, 0, k);
    }
    if i < q {
      assert InPiece(tiles[i / RECEIVE_FRAME], i);
    }
  }

  /** Whatever the settings become meanwhile, a whole cycle reads each register of its window exactly once and no
      other. */
  lemma CycleReadsOnce(y: Cycle, run: seq<Event>, i: nat)
    requires Tiled(y) && !y.busy && (forall i :: 0 <= i < |run| ==> Settable(run[i]))
    requires run != [] && run[0].Read? && ReadCount(run) == y.frames
    ensures var pieces := Reads(y, run);
      && ((exists k :: 0 <= k < |pieces| && InPiece(pieces[k], i)) <==> i < y.quantity)
      && forall j, k | 0 <= j < k < |pieces| :: !(InPiece(pieces[j], i) && InPiece(pieces[k], i))
  {
    WholeCycle(y, run);
    TilesPartition(y.quantity, i);
  }
}
