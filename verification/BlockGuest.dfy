/**
 The block daemon against any guest whatever: memory scribbled over at any moment, the
 walk of a descriptor chain included, and any queue registers, the sizes on which the
 walk is endless or the ring arithmetic undefined included.
 */
module BlockGuest {
  import opened Words
  import opened GuestMemory
  import opened Virtqueue
  import opened BlockImage
  import opened BlockRequest
  import opened BlockWalk
  import opened BlockTransfer
  import opened BlockDaemon

  /**
   Where the daemon stands: between notifications, about to poll, inside a chain, stopped,
   or past a division by zero.
   */
  datatype Stage =
    | Idle
    | Polling
    | InChain(head: u16, req: Request, index: u16, seen: u32, status: u8, dataLen: u32)
    | Halted
    | Undefined

  datatype Machine = Machine(ram: Ram, disk: Disk, queue: Queue, stage: Stage)

  /** A poll of a queue of any size: the slot is computed only when the index has moved, and then by a division. */
  datatype Polled = Answer(poll: Poll) | DividesByZero

  function PollAny(ram: Ram, q: Queue): Polled {
    if q.num % 0x1_0000 != 0 then Answer(NextAvail(ram, q))
    else match ram.Read16(Add64(q.avail, 2))
      case None => Answer(DmaError)
      case Some(idx) => if idx == q.lastAvail then Answer(Empty) else DividesByZero
  }

  /** What is left once the descriptor loop is over: used element and cursor, or the end of the daemon. */
  function ChainEnd(q: Queue, head: u16, r: Result): Machine {
    if !r.ok then Machine(r.ram, r.disk, q, Halted)
    else if q.num % 0x1_0000 == 0 then
      Machine(r.ram, r.disk, q, if r.ram.Read16(Add64(q.used, 2)).None? then Halted else Undefined)
    else
      var posted := AddUsed(r.ram, q, head, r.usedLen);
      if !posted.ok then Machine(posted.ram, r.disk, q, Halted)
      else Machine(posted.ram, r.disk, q.(lastAvail := Add16(q.lastAvail, 1)), Polling)
  }

  function AfterStep(q: Queue, head: u16, req: Request, p: Progress, flushOk: bool): Machine {
    match p
    case Walking(w, index, seen) => Machine(w.ram, w.disk, q, InChain(head, req, index, seen, w.status, w.dataLen))
    case Aborted(w) => Machine(w.ram, w.disk, q, Halted)
    case AtStatus(w, last) => ChainEnd(q, head, Complete(req, w, last, flushOk))
  }

  /** The daemon's next move: one poll and header, or one descriptor. */
  function DaemonMove(m: Machine, flushOk: bool): Machine {
    match m.stage
    case Idle => m.(stage := Polling)
    case Polling =>
      (match PollAny(m.ram, m.queue)
       case DividesByZero => m.(stage := Undefined)
       case Answer(DmaError) => m.(stage := Halted)
       case Answer(Empty) => m.(stage := Idle)
       case Answer(Head(h)) =>
         match ReadHeader(m.ram, m.queue, h)
         case None => m.(stage := Halted)
         case Some((req, first)) => m.(stage := InChain(h, req, first, 0, req.status, 0)))
    case InChain(head, req, index, seen, status, dataLen) =>
      AfterStep(m.queue, head, req,
                WalkStep(m.queue, req, Walking(Work(m.ram, m.disk, status, dataLen), index, seen)), flushOk)
    case Halted => m
    case Undefined => m
  }

  datatype Event =
    | Scribble                      // the guest changes its memory in any way
    | Reprogram(queue: Queue)       // and its queue registers, which reach the device between notifications
    | Move(flushOk: bool)

  ghost predicate Next(m: Machine, e: Event, m': Machine) {
    match e
    case Scribble => m' == m.(ram := m'.ram) && m'.ram.base == m.ram.base && |m'.ram.bytes| == |m.ram.bytes|
    case Reprogram(q) => (m.stage.Idle? || m.stage.Halted?) && m' == m.(queue := q, stage := Idle)
    case Move(flushOk) => m' == DaemonMove(m, flushOk)
  }

  ghost predicate Run(states: seq<Machine>, events: seq<Event>) {
    |states| == |events| + 1 && forall i :: 0 <= i < |events| ==> Next(states[i], events[i], states[i + 1])
  }

  // ---- Bounds ----

  ghost predicate Kept(m: Machine, m': Machine) {
    ExtentOf(m'.ram, m'.disk) == ExtentOf(m.ram, m.disk) && (m.disk.readonly ==> m'.disk == m.disk)
  }

  lemma AddUsedKeepsExtent(ram: Ram, q: Queue, head: u16, len: u32)
    requires q.num % 0x1_0000 != 0
    ensures var r := AddUsed(ram, q, head, len).ram;
            r.base == ram.base && |r.bytes| == |ram.bytes|
  {
  }

  lemma ChainMoveKeeps(m: Machine, flushOk: bool)
    requires m.stage.InChain?
    ensures Kept(m, DaemonMove(m, flushOk))
  {
    hide WalkStep, AddUsed, Complete;
    var c := m.stage;
    var p := Walking(Work(m.ram, m.disk, c.status, c.dataLen), c.index, c.seen);
    StepKeepsExtent(m.queue, c.req, p);
    var p' := WalkStep(m.queue, c.req, p);
    if p'.AtStatus? {
      CompleteKeepsExtent(c.req, p'.work, p'.last, flushOk);
      var r := Complete(c.req, p'.work, p'.last, flushOk);
      if m.queue.num % 0x1_0000 != 0 {
        AddUsedKeepsExtent(r.ram, m.queue, c.head, r.usedLen);
      }
    }
  }

  /**
   Over every run, whatever the guest writes and programs and whenever it does, the
   daemon stays inside the aperture and the image, and a read-only image never changes.
   */
  lemma {:induction false} AnyGuestIsContained(states: seq<Machine>, events: seq<Event>, i: nat)
    requires Run(states, events) && i < |states|
    ensures Kept(states[0], states[i])
  {
    if i > 0 {
      AnyGuestIsContained(states, events, i - 1);
      var m, e := states[i - 1], events[i - 1];
      assert Next(m, e, states[i]);
      if e.Move? && m.stage.InChain? {
        ChainMoveKeeps(m, e.flushOk);
      }
      hide WalkStep, NextAvail, ReadHeader, AfterStep;
    }
  }

  // ---- Queue sizes that divide by zero ----

  /** A poll divides by zero exactly when the low half of the size is zero and the index has moved. */
  lemma PollDivides(ram: Ram, q: Queue)
    ensures PollAny(ram, q) == DividesByZero
       <==> q.num % 0x1_0000 == 0 && var idx := ram.Read16(Add64(q.avail, 2)); idx.Some? && idx.value != q.lastAvail
  {
  }

  /** No guest memory makes a poll divide by zero exactly when the low half of the queue size is not zero. */
  lemma SizesThatAreSafe(q: Queue)
    ensures (forall ram: Ram :: PollAny(ram, q) != DividesByZero) <==> q.num % 0x1_0000 != 0
  {
    if q.num % 0x1_0000 == 0 {
      var idx: u16 := if q.lastAvail == 0 then 1 else 0;
      var ram := Ram(Add64(q.avail, 2), Store16(idx));
      assert ram.bytes[0..2] == Store16(idx);
      assert PollAny(ram, q) == DividesByZero;
    }
  }

  /** A guest that programs a size of 65536 and publishes one entry has the daemon divide by zero at its first kick. */
  lemma SixtyFourKDividesByZero(disk: Disk, flushOk: bool)
    ensures var m := Machine(Ram(0, [0, 0, 1, 0]), disk, Queue(0x1_0000, 1, 0, 0, 0, 0), Idle);
            Run([m, DaemonMove(m, flushOk), DaemonMove(DaemonMove(m, flushOk), flushOk)],
                [Move(flushOk), Move(flushOk)])
            && DaemonMove(DaemonMove(m, flushOk), flushOk).stage == Undefined
  {
    var bytes: seq<u8> := [0, 0, 1, 0];
    assert bytes[2..4] == [1, 0];
  }

  /**
   From a start between notifications, with sizes that are safe whenever the guest
   reprograms, no run divides by zero.
   */
  lemma {:induction false} SafeSizesStayDefined(states: seq<Machine>, events: seq<Event>, i: nat)
    requires Run(states, events) && i < |states| && states[0].stage == Idle && states[0].queue.num % 0x1_0000 != 0
    requires forall k :: 0 <= k < |events| && events[k].Reprogram? ==> events[k].queue.num % 0x1_0000 != 0
    ensures states[i].stage != Undefined && states[i].queue.num % 0x1_0000 != 0
  {
    hide WalkStep, NextAvail, ReadHeader, AddUsed, Complete;
    if i > 0 {
      SafeSizesStayDefined(states, events, i - 1);
      assert Next(states[i - 1], events[i - 1], states[i]);
    }
  }

  // ---- Left alone, the moves are the daemon's notification ----

  function Moves(m: Machine, flushOk: bool, n: nat): Machine
    decreases n
  {
    if n == 0 then m else Moves(DaemonMove(m, flushOk), flushOk, n - 1)
  }

  lemma WalkIsMoves(q: Queue, head: u16, req: Request, p: Progress, flushOk: bool) returns (n: nat)
    requires q.num != 0xffff_ffff && p.Walking? && p.seen <= q.num
    ensures n > 0
    ensures Moves(AfterStep(q, head, req, p, flushOk), flushOk, n) == AfterStep(q, head, req, Walk(q, req, p), flushOk)
    decreases q.num - p.seen
  {
    hide ReadDesc, Segment, ChainEnd;
    var p' := WalkStep(q, req, p);
    OneTurn(q, req, p);
    hide WalkStep;
    var m := AfterStep(q, head, req, p, flushOk);
    assert DaemonMove(m, flushOk) == AfterStep(q, head, req, p', flushOk);
    n := 1;
    if p'.Walking? {
      var k := WalkIsMoves(q, head, req, p', flushOk);
      n := k + 1;
    } else {
      assert Moves(m, flushOk, 1) == Moves(DaemonMove(m, flushOk), flushOk, 0);
    }
  }

  /** A turn of the notification loop, as the machine sees its result. */
  function Seen(l: Loop): Machine {
    Machine(l.d.ram, l.d.disk, l.d.queue, if l.Looping? then Polling else if l.Drained? then Idle else Halted)
  }

  /** Each turn of the notification loop is some number of these moves, when the guest keeps still. */
  lemma TurnIsMoves(d: Daemon, usedAny: bool, flushOk: bool) returns (n: nat)
    requires d.Sized()
    ensures n > 0
    ensures Moves(Seen(Looping(d, usedAny)), flushOk, n) == Seen(LoopTurn(Looping(d, usedAny), flushOk))
  {
    hide NextAvail, ReadHeader, Walk, WalkStep, AddUsed;
    var m := Seen(Looping(d, usedAny));
    n := 1;
    assert Moves(m, flushOk, 1) == Moves(DaemonMove(m, flushOk), flushOk, 0);
    if NextAvail(d.ram, d.queue).Head? {
      var h := NextAvail(d.ram, d.queue).head;
      if ReadHeader(d.ram, d.queue, h).Some? {
        var (req, first) := ReadHeader(d.ram, d.queue, h).value;
        var p := Start(d.ram, d.disk, req, first);
        var k := WalkIsMoves(d.queue, h, req, p, flushOk);
        assert DaemonMove(m, flushOk) == AfterStep(d.queue, h, req, p, flushOk);
        n := k + 1;
      }
    }
  }
}
