/**
 The block device behind its register window: `blkd_mmio_write` as one callback, and the
 interrupt line it drives.
 */
module DeviceBinding {
  import opened Words
  import opened Virtqueue
  import opened Registers
  import BlockDaemon
  import BlockRequest

  /** What serving the request queue came to, and where it left the queue's cursor. */
  datatype Serving = Broke(cursor: u16) | Done(usedAny: bool, cursor: u16)

  /** A callback's verdict, the registers it leaves, and the interrupt level it asked for, if it did. */
  datatype Reply = Reply(ok: bool, regs: Regs, irq: Option<bool>)

  /** `blkd_virtio_notify_queue`, as far as registers and interrupt go. */
  function NotifyReply(r: Regs, queue: u32, n: Serving): Reply {
    if queue != 0 || |r.queues| == 0 || r.queues[0].ready == 0 then Reply(true, r, Some(r.isr % 2 == 1))
    else
      var moved := r.(queues := r.queues[0 := r.queues[0].(lastAvail := n.cursor)]);
      match n
      case Broke(_) => Reply(false, moved, None)
      case Done(true, _) => Reply(true, moved.(isr := WithBit0(r.isr)), Some(true))
      case Done(false, _) => Reply(true, moved, Some(r.isr % 2 == 1))
  }

  /** `blkd_mmio_write`. */
  function Callback(r: Regs, size: u32, off: u64, raw: u64, n: Serving): Reply {
    var w := RegWrite(r, size, off, raw);
    if off == STATUS && raw == 0 then Reply(true, w, Some(false))
    else if off == INTERRUPT_ACK then Reply(true, w, Some(false))
    else if off == QUEUE_NOTIFY then NotifyReply(w, Low(raw), n)
    else Reply(true, w, None)
  }

  /** The daemon's own notification is one of these replies. */
  lemma DaemonNotifies(d: BlockDaemon.Daemon, r: Regs, queue: u32, flushes: nat -> bool, n: nat) returns (s: Serving)
    requires |r.queues| == 1 && r.queues[0] == d.queue && r.isr == d.isr
    requires queue == 0 && d.queue.ready != 0 ==> d.Sized() && !BlockDaemon.LoopTurns(d, flushes, n).Looping?
    ensures var (ok, d') := BlockDaemon.Notify(d, queue, flushes, n);
            var reply := NotifyReply(r, queue, s);
            && ok == reply.ok && reply.regs == r.(isr := d'.isr, queues := [d'.queue])
            && (ok ==> d'.irq == reply.irq)
  {
    s := Broke(d.queue.lastAvail);
    if queue == 0 && d.queue.ready != 0 {
      BlockDaemon.QueueKept(d, flushes, n);
      var l := BlockDaemon.LoopTurns(d, flushes, n);
      s := if l.Broken? then Broke(l.d.queue.lastAvail) else Done(l.usedAny, l.d.queue.lastAvail);
    }
  }

  // ---- The interrupt line ----

  /** The level after a request, if any. */
  function Driven(level: bool, request: Option<bool>): bool {
    match request
    case None => level
    case Some(l) => l
  }

  /** An asserted line has a pending cause for the guest to find. */
  predicate Caused(level: bool, isr: u32) {
    level ==> isr % 2 == 1
  }

  /**
   A callback keeps an asserted line caused, with one exception: a status write that is
   zero in its low half only resets the device without lowering the line.
   */
  lemma CallbackKeepsCause(r: Regs, size: u32, level: bool, off: u64, raw: u64, n: Serving)
    requires Caused(level, r.isr)
    ensures var reply := Callback(r, size, off, raw, n);
            (Caused(Driven(level, reply.irq), reply.regs.isr) <==>
             !(off == STATUS && raw != 0 && Low(raw) == 0 && level))
  {
  }

  /** The exception, on a device with a pending interrupt: the guest sees a line nobody explains. */
  lemma WideStatusWriteStrandsLine(size: u32)
    ensures var r := Initial(1, size).(isr := 1);
            var reply := Callback(r, size, STATUS, 0x1_0000_0000, Done(false, 0));
            Caused(true, r.isr) && !Caused(Driven(true, reply.irq), reply.regs.isr)
  {
  }

  /**
   A callback keeps the line at the level its cause asks for, asserted exactly while the
   used-buffer bit is pending, but for that status write and for an acknowledgement that
   leaves the bit out: the line goes down all the same.
   */
  lemma CallbackKeepsLine(r: Regs, size: u32, level: bool, off: u64, raw: u64, n: Serving)
    requires level <==> r.isr % 2 == 1
    ensures var reply := Callback(r, size, off, raw, n);
            (Driven(level, reply.irq) == (reply.regs.isr % 2 == 1) <==>
             && !(off == 0x070 && raw != 0 && Low(raw) == 0 && level)
             && !(off == 0x064 && raw % 2 == 0 && level))
  {
    hide AndNot, QueueWrite;
    LowBit(raw);
    hide Low;
  }

  lemma LowBit(raw: u64)
    ensures Low(raw) % 2 == raw % 2 && (raw == 0 ==> Low(raw) == 0)
  {
  }

  /** The second exception: a pending used buffer behind a line that nothing will raise again. */
  lemma AckWithoutTheBitDropsLine(size: u32)
    ensures var r := Initial(1, size).(isr := 1);
            var reply := Callback(r, size, 0x064, 2, Done(false, 0));
            reply.regs.isr == 1 && !Driven(true, reply.irq)
  {
    assert AndNot(0, 1) == 0 && AndNot(1, 2) == 1;
  }

  datatype Access = Access(off: u64, raw: u64, serving: Serving)

  /** Registers and line after a run of callbacks from a fresh connection with the line low. */
  function Connected(size: u32, run: seq<Access>): (Regs, bool) {
    if run == [] then (Initial(1, size), false)
    else
      var (r, level) := Connected(size, run[..|run| - 1]);
      var a := run[|run| - 1];
      var reply := Callback(r, size, a.off, a.raw, a.serving);
      (reply.regs, Driven(level, reply.irq))
  }

  /** Over a whole connection of 32-bit accesses, an asserted line always has its cause pending. */
  lemma {:induction false} LineAlwaysCaused(size: u32, run: seq<Access>)
    requires forall a :: a in run ==> a.raw < 0x1_0000_0000
    ensures Caused(Connected(size, run).1, Connected(size, run).0.isr)
  {
    hide Callback;
    if run != [] {
      var earlier := run[..|run| - 1];
      LineAlwaysCaused(size, earlier);
      var (r, level) := Connected(size, earlier);
      var a := run[|run| - 1];
      assert a in run;
      CallbackKeepsCause(r, size, level, a.off, a.raw, a.serving);
    }
  }

  /**
   Over a connection whose acknowledgements name the used-buffer bit, the line is asserted
   exactly while that bit is pending.
   */
  lemma {:induction false} LineIsCause(size: u32, run: seq<Access>)
    requires forall a :: a in run ==> a.raw < 0x1_0000_0000 && (a.off == 0x064 ==> a.raw % 2 == 1)
    ensures Connected(size, run).1 <==> Connected(size, run).0.isr % 2 == 1
  {
    hide Callback;
    if run != [] {
      var earlier := run[..|run| - 1];
      LineIsCause(size, earlier);
      var (r, level) := Connected(size, earlier);
      var a := run[|run| - 1];
      assert a in run;
      CallbackKeepsLine(r, size, level, a.off, a.raw, a.serving);
    }
  }
}
