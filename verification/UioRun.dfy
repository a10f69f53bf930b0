/**
 Guest and daemon on the shared window, one access at a time: the guest's writes fall
 between any two loads and stores of the daemon's scan and publication.
 */
module UioRun {
  import opened Words
  import opened Virtqueue
  import opened Registers
  import opened DeviceBinding
  import opened UioScan

  const ACK := 12

  /** The queue registers in the order in which a select reloads their shadows. */
  const RELOADED: seq<nat> := [4, 11, 5, 6, 7, 8, 9, 10]

  const PUBLISHED := 73
  const ISR_PUBLISHED := 6

  /** The registers in the order in which they are published. */
  function PublishedAt(j: nat): (off: u64)
    requires j < PUBLISHED
    ensures IsPublished(off) && off != IRQ_CONTROL
  {
    if j < 9 then READ_OFFSETS[j] else CONFIG + 4 * (j - 9)
  }

  /** Where the daemon stands between two accesses to the window. */
  datatype Phase =
    | Waiting                           // asleep
    | Looking(at: nat)                  // about to load a register; past the last one publication is next
    | Loaded(at: nat, value: u32)       // it differed from its shadow; its callback is next
    | Rearmed(value: u32)               // the notify register is idle again; its callback is next
    | Returned(at: nat)                 // the callback is back
    | Reloading(next: nat)              // taking the shadows of the queue registers from the window
    | Publishing(next: nat)
    | Flushing                          // about to drive the line
    | Stopped                           // a callback failed

  datatype Fabric = Fabric(u: Uio, phase: Phase) {
    ghost predicate Shaped() {
      && u.Shaped()
      && match phase
         case Looking(k) => k <= COUNT
         case Loaded(k, _) => k < COUNT
         case Returned(k) => k < COUNT
         case Reloading(j) => j < |RELOADED|
         case Publishing(j) => j <= PUBLISHED
         case _ => true
    }
  }

  /** The callback's effect on device and deferred level, and where the scan goes on. */
  function Called(u: Uio, size: u32, off: u64, v: u32, n: Serving, next: Phase): Fabric {
    var s := Dispatched(u, size, off, v, n);
    Fabric(s.u, if s.ok then next else Stopped)
  }

  /** The daemon's next access. */
  function Stepped(f: Fabric, size: u32, n: Serving): (g: Fabric)
    requires f.Shaped()
    ensures g.Shaped()
  {
    var u := f.u;
    match f.phase
    case Looking(k) =>
      if k == COUNT then f.(phase := Publishing(0))
      else if At(u.words, WRITE_OFFSETS[k]) == u.shadow[k] then f.(phase := Looking(k + 1))
      else f.(phase := Loaded(k, At(u.words, WRITE_OFFSETS[k])))
    case Loaded(k, v) =>
      if k == NOTIFY then
        Fabric(u.(words := Put(u.words, QUEUE_NOTIFY, NOTIFY_IDLE), shadow := u.shadow[k := NOTIFY_IDLE]), Rearmed(v))
      else Called(u.(shadow := u.shadow[k := v]), size, WRITE_OFFSETS[k], v, n, Returned(k))
    case Rearmed(v) => Called(u, size, QUEUE_NOTIFY, v, n, Looking(NOTIFY + 1))
    case Returned(k) =>
      if k == SEL then f.(phase := Reloading(0))
      else if k == ACK then
        Fabric(u.(words := Put(u.words, INTERRUPT_ACK, 0), shadow := u.shadow[k := 0]), Looking(k + 1))
      else f.(phase := Looking(k + 1))
    case Reloading(j) =>
      var i := RELOADED[j];
      Fabric(u.(shadow := u.shadow[i := At(u.words, WRITE_OFFSETS[i])]),
             if j + 1 < |RELOADED| then Reloading(j + 1) else Looking(SEL + 1))
    case Publishing(j) =>
      if j == PUBLISHED then f.(phase := Flushing)
      else
        var off := PublishedAt(j);
        Fabric(u.(words := Put(u.words, off, RegRead(u.regs, u.ident, size, off))), Publishing(j + 1))
    case Flushing => Fabric(Flush(u), Waiting)
    case _ => f
  }

  /** The guest writes a register of its own, at any moment; the daemon wakes, or makes its next access. */
  datatype Move = GuestWrites(index: nat, value: u32) | Wakes | Steps(serving: Serving)

  function Moved(f: Fabric, size: u32, m: Move): (g: Fabric)
    requires f.Shaped() && (m.GuestWrites? ==> m.index < COUNT)
    ensures g.Shaped()
  {
    match m
    case GuestWrites(i, v) => f.(u := f.u.(words := Put(f.u.words, WRITE_OFFSETS[i], v)))
    case Wakes => if f.phase.Waiting? then f.(phase := Looking(0)) else f
    case Steps(n) => Stepped(f, size, n)
  }

  ghost predicate Run(size: u32, states: seq<Fabric>, moves: seq<Move>) {
    && |states| == |moves| + 1 && states[0].Shaped()
    && forall i :: 0 <= i < |moves| ==>
         && (moves[i].GuestWrites? ==> moves[i].index < COUNT)
         && states[i].Shaped() && states[i + 1] == Moved(states[i], size, moves[i])
  }

  // ---- The line ----

  /** The cause of the level the line will have is pending, and published before that level is driven. */
  ghost predicate LineInv(f: Fabric) {
    && f.Shaped()
    && Caused(Driven(Level(f.u.words), f.u.pending), f.u.regs.isr)
    && ((f.phase.Publishing? && f.phase.next > ISR_PUBLISHED) || f.phase.Flushing? || f.phase.Waiting? ==>
          At(f.u.words, INTERRUPT_STATUS) == f.u.regs.isr)
    && (f.phase.Waiting? ==> f.u.pending.None?)
  }

  /** The level a move asks for, if it does. */
  function Asked(f: Fabric, size: u32, m: Move): Option<bool>
    requires f.Shaped()
  {
    match m
    case Steps(n) =>
      (match f.phase
       case Loaded(k, v) =>
         if k == NOTIFY then None else Callback(f.u.regs, size, WRITE_OFFSETS[k], v, n).irq
       case Rearmed(v) => Callback(f.u.regs, size, QUEUE_NOTIFY, v, n).irq
       case _ => None)
    case _ => None
  }

  lemma OwnOffset(i: nat)
    requires i < COUNT
    ensures WRITE_OFFSETS[i] / 4 != IRQ_CONTROL / 4 && WRITE_OFFSETS[i] / 4 != INTERRUPT_STATUS / 4
    ensures WRITE_OFFSETS[i] == INTERRUPT_ACK <==> i == ACK
    ensures WRITE_OFFSETS[i] == QUEUE_NOTIFY <==> i == NOTIFY
    ensures WRITE_OFFSETS[i] == QUEUE_SEL <==> i == SEL
  {
  }

  /** A move drives the line nowhere but in a flush, and defers just what it is asked for. */
  lemma MoveAsks(f: Fabric, size: u32, m: Move)
    requires f.Shaped() && (m.GuestWrites? ==> m.index < COUNT)
    ensures var g := Moved(f, size, m);
            Driven(Level(g.u.words), g.u.pending) == Driven(Driven(Level(f.u.words), f.u.pending), Asked(f, size, m))
  {
    hide Callback, RegRead, Flush;
    match m
    case GuestWrites(i, v) => OwnOffset(i);
    case Wakes =>
    case Steps(n) =>
      match f.phase
      case Flushing => FlushDrives(f.u);
      case Publishing(j) => PublicationKeepsLine(f, size, n);
      case _ =>
  }

  lemma FlushDrives(u: Uio)
    requires u.Shaped()
    ensures Driven(Level(Flush(u).words), Flush(u).pending) == Driven(Level(u.words), u.pending)
  {
  }

  lemma PublicationKeepsLine(f: Fabric, size: u32, n: Serving)
    requires f.Shaped() && f.phase.Publishing?
    ensures var g := Stepped(f, size, n);
            Level(g.u.words) == Level(f.u.words) && g.u.pending == f.u.pending
  {
    hide RegRead;
    if f.phase.next < PUBLISHED {
      Aligned(f.phase.next);
      hide PublishedAt;
    }
  }

  lemma MoveKeepsLine(f: Fabric, size: u32, m: Move)
    requires LineInv(f) && (m.GuestWrites? ==> m.index < COUNT)
    ensures LineInv(Moved(f, size, m))
  {
    hide Callback;
    MoveAsks(f, size, m);
    var level := Driven(Level(f.u.words), f.u.pending);
    match m
    case GuestWrites(i, v) => OwnOffset(i);
    case Wakes =>
    case Steps(n) =>
      match f.phase
      case Loaded(k, v) => CallbackKeepsCause(f.u.regs, size, level, WRITE_OFFSETS[k], v, n);
      case Rearmed(v) => CallbackKeepsCause(f.u.regs, size, level, QUEUE_NOTIFY, v, n);
      case Publishing(j) => PublicationKeepsIsr(f, size, n);
      case _ =>
  }

  lemma PublicationKeepsIsr(f: Fabric, size: u32, n: Serving)
    requires f.Shaped() && f.phase.Publishing?
    ensures var g := Stepped(f, size, n);
            && At(g.u.words, INTERRUPT_STATUS) ==
                (if f.phase.next == ISR_PUBLISHED then f.u.regs.isr else At(f.u.words, INTERRUPT_STATUS))
            && g.u.regs == f.u.regs && g.u.pending == f.u.pending
  {
  }

  /**
   Over every run, the guest's writes falling between any two accesses: while the daemon
   sleeps the line is settled; and when it is about to assert the line, the published
   interrupt status already shows the cause.
   */
  lemma {:induction false} RunStaysSettled(size: u32, states: seq<Fabric>, moves: seq<Move>, i: nat)
    requires Run(size, states, moves) && i < |states| && states[0].phase == Waiting && Settled(states[0].u)
    ensures LineInv(states[i])
    ensures states[i].phase.Waiting? ==> Settled(states[i].u)
    ensures states[i].phase.Flushing? && Driven(Level(states[i].u.words), states[i].u.pending) ==>
              At(states[i].u.words, INTERRUPT_STATUS) % 2 == 1
  {
    hide Moved;
    if i > 0 {
      RunStaysSettled(size, states, moves, i - 1);
      MoveKeepsLine(states[i - 1], size, moves[i - 1]);
    }
  }

  /** All levels asked for in the first `i` moves, in order. */
  ghost function AskedSoFar(size: u32, states: seq<Fabric>, moves: seq<Move>, i: nat): seq<bool>
    requires Run(size, states, moves) && i < |states|
  {
    if i == 0 then []
    else AskedSoFar(size, states, moves, i - 1)
         + match Asked(states[i - 1], size, moves[i - 1])
           case None => []
           case Some(level) => [level]
  }

  /**
   Over every run, deferring keeps only the latest level, which is where driving the line
   at every request would leave it; while the daemon sleeps the line is there.
   */
  lemma {:induction false} DeferringIsDrivingInRuns(size: u32, states: seq<Fabric>, moves: seq<Move>, i: nat)
    requires Run(size, states, moves) && i < |states| && states[0].u.pending.None?
    ensures states[i].Shaped()
    ensures Driven(Level(states[i].u.words), states[i].u.pending)
         == DrivenByAll(Level(states[0].u.words), AskedSoFar(size, states, moves, i))
  {
    hide Moved, Asked, AskedSoFar, DrivenByAll, Driven, Level;
    if i == 0 {
      NothingAsked(size, states, moves);
    } else {
      DeferringIsDrivingInRuns(size, states, moves, i - 1);
      MoveAsks(states[i - 1], size, moves[i - 1]);
      NextAsked(size, states, moves, i);
      DrivenMore(Level(states[0].u.words), AskedSoFar(size, states, moves, i - 1),
          Asked(states[i - 1], size, moves[i - 1]));
    }
  }

  lemma NothingAsked(size: u32, states: seq<Fabric>, moves: seq<Move>)
    requires Run(size, states, moves) && states[0].u.pending.None?
    ensures AskedSoFar(size, states, moves, 0) == []
    ensures Driven(Level(states[0].u.words), states[0].u.pending) == DrivenByAll(Level(states[0].u.words), [])
  {
  }

  function Added(asked: seq<bool>, more: Option<bool>): seq<bool> {
    match more
    case None => asked
    case Some(level) => asked + [level]
  }

  lemma NextAsked(size: u32, states: seq<Fabric>, moves: seq<Move>, i: nat)
    requires Run(size, states, moves) && 0 < i < |states|
    ensures AskedSoFar(size, states, moves, i)
         == Added(AskedSoFar(size, states, moves, i - 1), Asked(states[i - 1], size, moves[i - 1]))
  {
    hide Moved, Asked;
    var before := AskedSoFar(size, states, moves, i - 1);
    assert before + [] == before;
  }

  lemma DrivenMore(level: bool, asked: seq<bool>, more: Option<bool>)
    ensures DrivenByAll(level, Added(asked, more)) == Driven(DrivenByAll(level, asked), more)
  {
    if more.Some? {
      var all := asked + [more.value];
      assert all[..|all| - 1] == asked;
    }
  }

  // ---- An acknowledgement that comes too late ----

  /** The daemon overwrites what the guest acknowledged exactly in the write-back after an acknowledgement. */
  lemma AckIsOverwritten(f: Fabric, size: u32, n: Serving)
    requires f.Shaped()
    ensures At(Stepped(f, size, n).u.words, INTERRUPT_ACK) == At(f.u.words, INTERRUPT_ACK)
       <==> f.phase != Returned(ACK) || At(f.u.words, INTERRUPT_ACK) == 0
  {
    hide Callback, RegRead;
    if f.phase.Publishing? && f.phase.next < PUBLISHED {
      NotPublished(f.phase.next);
    }
  }

  lemma NotPublished(j: nat)
    requires j < PUBLISHED
    ensures PublishedAt(j) / 4 != INTERRUPT_ACK / 4
  {
  }

  /**
   Whatever the guest acknowledges between load and write-back of an earlier
   acknowledgement never reaches the device: register and shadow are zero again, and the
   interrupt bits are as the earlier one left them.
   */
  lemma LateAckIsLost(f: Fabric, size: u32, v: u32, n: Serving)
    requires f.Shaped() && f.phase.Loaded? && f.phase.at == ACK
    ensures var written := Moved(f, size, GuestWrites(ACK, v));
            var g := Stepped(Stepped(written, size, n), size, n);
            && g.phase == Looking(ACK + 1)
            && At(g.u.words, INTERRUPT_ACK) == 0 == g.u.shadow[ACK]
            && g.u.regs.isr == AndNot(f.u.regs.isr, f.phase.value)
  {
    hide AndNot;
  }

  /** A device with both interrupt bits pending, the daemon having loaded an acknowledgement of the second. */
  function TwoPending(size: u32): (f: Fabric)
    ensures f.Shaped()
  {
    Fabric(Uio(seq(WINDOW_WORDS, k => if k == INTERRUPT_ACK / 4 then 2 else 0), seq(COUNT, _ => 0),
               Ident(0, 0, 0, []), Initial(1, size).(isr := 3), Some(true)),
           Loaded(ACK, 2))
  }

  /** There the guest acknowledges the used buffer too late, and the bit stays pending behind a lowered line. */
  lemma UsedBufferStaysPending(size: u32, n: Serving)
    ensures var written := Moved(TwoPending(size), size, GuestWrites(ACK, 1));
            var g := Stepped(Stepped(written, size, n), size, n);
            && g.u.regs.isr == 1 && g.u.pending == Some(false)
            && At(g.u.words, INTERRUPT_ACK) == 0 == g.u.shadow[ACK]
  {
    var f := TwoPending(size);
    assert WRITE_OFFSETS[ACK] == INTERRUPT_ACK;
    LateAckIsLost(f, size, 1, n);
    assert AndNot(0, 0) == 0 && AndNot(1, 1) == 0 && AndNot(3, 2) == 2 * AndNot(1, 1) + 1;
  }

  // ---- Left alone, the accesses are the turn ----

  function Moves(f: Fabric, size: u32, n: Serving, k: nat): (g: Fabric)
    requires f.Shaped()
    ensures g.Shaped()
    decreases k
  {
    if k == 0 then f else Moves(Stepped(f, size, n), size, n, k - 1)
  }

  lemma {:induction false} MovesOn(f: Fabric, size: u32, n: Serving, a: nat, b: nat)
    requires f.Shaped()
    ensures Moves(f, size, n, a + b) == Moves(Moves(f, size, n, a), size, n, b)
    decreases a
  {
    hide Stepped;
    if a > 0 {
      MovesOn(Stepped(f, size, n), size, n, a - 1, b);
    }
  }

  lemma OneMove(f: Fabric, size: u32, n: Serving)
    requires f.Shaped()
    ensures Moves(f, size, n, 1) == Stepped(f, size, n)
  {
    hide Stepped;
    assert Moves(Stepped(f, size, n), size, n, 0) == Stepped(f, size, n);
  }

  /** The shadows with the first `j` reloaded. */
  function ReloadedTo(u: Uio, j: nat): (r: seq<u32>)
    requires u.Shaped() && j <= |RELOADED|
    ensures |r| == COUNT
  {
    if j == 0 then u.shadow
    else var i := RELOADED[j - 1]; ReloadedTo(u, j - 1)[i := At(u.words, WRITE_OFFSETS[i])]
  }

  lemma {:induction false} ReloadMoves(u: Uio, size: u32, n: Serving, j: nat)
    requires u.Shaped() && j < |RELOADED|
    ensures Moves(Fabric(u, Reloading(0)), size, n, j) == Fabric(u.(shadow := ReloadedTo(u, j)), Reloading(j))
  {
    hide WRITE_OFFSETS;
    if j > 0 {
      ReloadMoves(u, size, n, j - 1);
      MovesOn(Fabric(u, Reloading(0)), size, n, j - 1, 1);
      OneMove(Fabric(u.(shadow := ReloadedTo(u, j - 1)), Reloading(j - 1)), size, n);
    }
  }

  lemma {:induction false} ReloadedAt(u: Uio, j: nat, i: nat)
    requires u.Shaped() && j <= |RELOADED| && i < COUNT
    ensures ReloadedTo(u, j)[i] == if i in RELOADED[..j] then At(u.words, WRITE_OFFSETS[i]) else u.shadow[i]
  {
    hide WRITE_OFFSETS;
    if j > 0 {
      ReloadedAt(u, j - 1, i);
      assert RELOADED[..j] == RELOADED[..j - 1] + [RELOADED[j - 1]];
    }
  }

  lemma AllReloaded(u: Uio, size: u32, n: Serving)
    requires u.Shaped()
    ensures Moves(Fabric(u, Reloading(0)), size, n, |RELOADED|)
         == Fabric(u.(shadow := Reload(u.words, u.shadow)), Looking(SEL + 1))
  {
    var last := |RELOADED| - 1;
    ReloadMoves(u, size, n, last);
    MovesOn(Fabric(u, Reloading(0)), size, n, last, 1);
    OneMove(Fabric(u.(shadow := ReloadedTo(u, last)), Reloading(last)), size, n);
    assert RELOADED[..|RELOADED|] == RELOADED;
    forall i | 0 <= i < COUNT
      ensures ReloadedTo(u, |RELOADED|)[i] == Reload(u.words, u.shadow)[i]
    {
      ReloadedAt(u, |RELOADED|, i);
      assert i in RELOADED <==> IsQueueIndex(i);
    }
    hide WRITE_OFFSETS, Moves;
    assert ReloadedTo(u, |RELOADED|) == Reload(u.words, u.shadow);
  }

  /** What a scan makes of a register, as the run sees it. */
  function Scanned(s: Scan, next: nat): Fabric {
    Fabric(s.u, if s.ok then Looking(next) else Stopped)
  }

  /** The accesses of one register. */
  lemma RegisterMoves(u: Uio, size: u32, i: nat, n: Serving) returns (k: nat)
    requires u.Shaped() && i < COUNT
    ensures Moves(Fabric(u, Looking(i)), size, n, k) == Scanned(ScanOne(u, size, i, n), i + 1)
  {
    hide Moves, Callback, Reload;
    OwnOffset(i);
    var f := Fabric(u, Looking(i));
    var v := At(u.words, WRITE_OFFSETS[i]);
    OneMove(f, size, n);
    k := 1;
    if v != u.shadow[i] {
      var f1 := Stepped(f, size, n);
      var f2 := Stepped(f1, size, n);
      OneMove(f1, size, n);
      MovesOn(f, size, n, 1, 1);
      k := 2;
      if i == NOTIFY || f2.phase.Returned? {
        var f3 := Stepped(f2, size, n);
        OneMove(f2, size, n);
        MovesOn(f, size, n, 2, 1);
        k := 3;
        if i == SEL {
          AllReloaded(f3.u, size, n);
          MovesOn(f, size, n, 3, |RELOADED|);
          k := 3 + |RELOADED|;
        }
      }
    }
  }

  lemma {:induction false} ScanMoves(u: Uio, size: u32, i: nat, n: Serving) returns (k: nat)
    requires u.Shaped() && i <= COUNT
    ensures Moves(Fabric(u, Looking(0)), size, n, k) == Scanned(ScanUpTo(u, size, i, n), i)
  {
    hide Moves, ScanOne;
    if i == 0 {
      k := 0;
      NoMoves(Fabric(u, Looking(0)), size, n);
    } else {
      k := ScanMoves(u, size, i - 1, n);
      var s := ScanUpTo(u, size, i - 1, n);
      if s.ok {
        var more := RegisterMoves(s.u, size, i - 1, n);
        MovesOn(Fabric(u, Looking(0)), size, n, k, more);
        k := k + more;
      }
    }
  }

  lemma NoMoves(f: Fabric, size: u32, n: Serving)
    requires f.Shaped()
    ensures Moves(f, size, n, 0) == f
  {
  }

  /** The window with the first `j` registers published. */
  function PublishedTo(u: Uio, size: u32, j: nat): (r: seq<u32>)
    requires u.Shaped() && j <= PUBLISHED
    ensures |r| == WINDOW_WORDS
  {
    if j == 0 then u.words
    else Put(PublishedTo(u, size, j - 1), PublishedAt(j - 1), RegRead(u.regs, u.ident, size, PublishedAt(j - 1)))
  }

  lemma {:induction false} PublishMoves(u: Uio, size: u32, n: Serving, j: nat)
    requires u.Shaped() && j <= PUBLISHED
    ensures Moves(Fabric(u, Publishing(0)), size, n, j) == Fabric(u.(words := PublishedTo(u, size, j)), Publishing(j))
  {
    hide RegRead, PublishedAt, Moves;
    if j == 0 {
      NoMoves(Fabric(u, Publishing(0)), size, n);
    } else {
      PublishMoves(u, size, n, j - 1);
      MovesOn(Fabric(u, Publishing(0)), size, n, j - 1, 1);
      OneMove(Fabric(u.(words := PublishedTo(u, size, j - 1)), Publishing(j - 1)), size, n);
    }
  }

  /** A word is as it is read from the device once its register is published, and as it was before. */
  lemma {:induction false} PublishedWord(u: Uio, size: u32, j: nat, k: nat)
    requires u.Shaped() && j <= PUBLISHED && k < WINDOW_WORDS
    ensures PublishedTo(u, size, j)[k] == if Covered(j, k) then RegRead(u.regs, u.ident, size, 4 * k) else u.words[k]
  {
    hide RegRead, PublishedAt, PublishedTo, Covered;
    if j == 0 {
      NothingPublished(u, size, k);
    } else {
      PublishedWord(u, size, j - 1, k);
      OneMorePublished(u, size, j, k);
      CoveredNext(j, k);
    }
  }

  lemma NothingPublished(u: Uio, size: u32, k: nat)
    requires u.Shaped() && k < WINDOW_WORDS
    ensures PublishedTo(u, size, 0) == u.words && !Covered(0, k)
  {
  }

  lemma OneMorePublished(u: Uio, size: u32, j: nat, k: nat)
    requires u.Shaped() && 0 < j <= PUBLISHED && k < WINDOW_WORDS
    ensures PublishedTo(u, size, j)[k] == if PublishedAt(j - 1) == 4 * k then RegRead(u.regs, u.ident, size, 4 * k)
                                          else PublishedTo(u, size, j - 1)[k]
  {
    Aligned(j - 1);
    hide RegRead, PublishedAt;
  }

  lemma CoveredNext(j: nat, k: nat)
    requires 0 < j <= PUBLISHED
    ensures Covered(j, k) <==> Covered(j - 1, k) || PublishedAt(j - 1) == 4 * k
  {
    hide PublishedAt;
    if Covered(j, k) {
      var i: nat :| i < j && PublishedAt(i) == 4 * k;
    }
    if Covered(j - 1, k) {
      var i: nat :| i < j - 1 && PublishedAt(i) == 4 * k;
      assert i < j && PublishedAt(i) == 4 * k;
    }
  }

  ghost predicate Covered(j: nat, k: nat)
    requires j <= PUBLISHED
  {
    exists i: nat :: i < j && PublishedAt(i) == 4 * k
  }

  lemma Aligned(j: nat)
    requires j < PUBLISHED
    ensures PublishedAt(j) == 4 * (PublishedAt(j) / 4) && PublishedAt(j) < 0x1000
  {
  }

  lemma CoversPublished(k: nat)
    requires k < WINDOW_WORDS
    ensures Covered(PUBLISHED, k) <==> IsPublished(4 * k)
  {
    if IsPublished(4 * k) {
      var i: nat;
      if 4 * k in READ_OFFSETS {
        i :| 0 <= i < |READ_OFFSETS| && READ_OFFSETS[i] == 4 * k;
      } else {
        i := 9 + (4 * k - CONFIG) / 4;
      }
      assert i < PUBLISHED && PublishedAt(i) == 4 * k;
    }
  }

  lemma AllPublished(u: Uio, size: u32)
    requires u.Shaped()
    ensures u.(words := PublishedTo(u, size, PUBLISHED)) == Publish(u, size)
  {
    hide RegRead, PublishedAt, PublishedTo, IsPublished;
    forall k | 0 <= k < WINDOW_WORDS
      ensures PublishedTo(u, size, PUBLISHED)[k] == Publish(u, size).words[k]
    {
      PublishedWord(u, size, PUBLISHED, k);
      CoversPublished(k);
    }
    assert PublishedTo(u, size, PUBLISHED) == Publish(u, size).words;
  }

  /** When the guest keeps still, the accesses after a wake-up add up to one turn of the daemon. */
  lemma QuietTurn(u: Uio, size: u32, n: Serving) returns (k: nat)
    requires u.Shaped()
    ensures var t := Turn(u, size, n);
            Moves(Fabric(u, Looking(0)), size, n, k) == Fabric(t.u, if t.ok then Waiting else Stopped)
  {
    hide Moves, ScanUpTo, RegRead, Publish, PublishedTo;
    var f := Fabric(u, Looking(0));
    k := ScanMoves(u, size, COUNT, n);
    var s := PollWrites(u, size, n);
    if s.ok {
      var f1 := Fabric(s.u, Publishing(0));
      OneMove(Fabric(s.u, Looking(COUNT)), size, n);
      MovesOn(f, size, n, k, 1);
      PublishMoves(s.u, size, n, PUBLISHED);
      AllPublished(s.u, size);
      MovesOn(f, size, n, k + 1, PUBLISHED);
      var f2 := Fabric(Publish(s.u, size), Publishing(PUBLISHED));
      OneMove(f2, size, n);
      MovesOn(f, size, n, k + 1 + PUBLISHED, 1);
      OneMove(f2.(phase := Flushing), size, n);
      MovesOn(f, size, n, k + 2 + PUBLISHED, 1);
      k := k + 3 + PUBLISHED;
    }
  }
}
