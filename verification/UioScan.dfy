/**
 The shadow-register transport: a shared window the guest writes, scanned for changes by
 the daemon, which then publishes its registers and only after that drives the interrupt.
 */
module UioScan {
  import opened Words
  import opened Virtqueue
  import opened Registers
  import opened DeviceBinding

  const IRQ_CONTROL := 0x200
  const WINDOW_WORDS := 0x400

  /** Guest-writable registers in scan order: every queue register lies between select and ready. */
  const WRITE_OFFSETS: seq<u64> :=
    [DEVICE_FEATURES_SEL, DRIVER_FEATURES, DRIVER_FEATURES_SEL, QUEUE_SEL, QUEUE_NUM, QUEUE_DESC_LOW, QUEUE_DESC_HIGH,
     QUEUE_AVAIL_LOW, QUEUE_AVAIL_HIGH, QUEUE_USED_LOW, QUEUE_USED_HIGH, QUEUE_READY,
     INTERRUPT_ACK, QUEUE_NOTIFY, STATUS]

  const COUNT := 15
  const SEL := 3
  const READY := 11

  /** The window as 32-bit words, the shadows, the device and its registers, the deferred interrupt level. */
  datatype Uio = Uio(words: seq<u32>, shadow: seq<u32>, ident: Ident, regs: Regs, pending: Option<bool>) {
    predicate Shaped() {
      |words| == WINDOW_WORDS && |shadow| == COUNT
    }
  }

  function At(words: seq<u32>, off: u64): u32
    requires |words| == WINDOW_WORDS && off < 0x1000
  {
    words[off / 4]
  }

  function Put(words: seq<u32>, off: u64, v: u32): (r: seq<u32>)
    requires |words| == WINDOW_WORDS && off < 0x1000
    ensures |r| == WINDOW_WORDS
  {
    words[off / 4 := v]
  }

  predicate IsQueueIndex(i: nat) {
    4 <= i <= READY
  }

  /** Shadows of the queue registers taken from the window, the others kept. */
  function Reload(words: seq<u32>, shadow: seq<u32>): (r: seq<u32>)
    requires |words| == WINDOW_WORDS && |shadow| == COUNT
    ensures |r| == COUNT
    ensures forall j :: 0 <= j < COUNT ==> r[j] == if IsQueueIndex(j) then At(words, WRITE_OFFSETS[j]) else shadow[j]
  {
    seq(COUNT, j requires 0 <= j < COUNT => if IsQueueIndex(j) then At(words, WRITE_OFFSETS[j]) else shadow[j])
  }

  /** A scan under way, or stopped by a failed callback. */
  datatype Scan = Scan(ok: bool, u: Uio)

  /** What the callback made of a dispatched value. */
  function Dispatched(u: Uio, size: u32, off: u64, v: u32, n: Serving): Scan {
    var reply := Callback(u.regs, size, off, v, n);
    Scan(reply.ok, u.(regs := reply.regs, pending := if reply.irq.Some? then reply.irq else u.pending))
  }

  /** One register of the scan: nothing if it equals its shadow, otherwise a dispatch. */
  function ScanOne(u: Uio, size: u32, i: nat, n: Serving): (s: Scan)
    requires u.Shaped() && i < COUNT
    ensures s.u.Shaped()
  {
    var off := WRITE_OFFSETS[i];
    var v := At(u.words, off);
    if v == u.shadow[i] then Scan(true, u)
    else if off == QUEUE_NOTIFY then
      Dispatched(u.(words := Put(u.words, off, NOTIFY_IDLE), shadow := u.shadow[i := NOTIFY_IDLE]), size, off, v, n)
    else
      var s := Dispatched(u.(shadow := u.shadow[i := v]), size, off, v, n);
      if !s.ok then s
      else if off == QUEUE_SEL then Scan(true, s.u.(shadow := Reload(s.u.words, s.u.shadow)))
      else if off == INTERRUPT_ACK then Scan(true, s.u.(words := Put(s.u.words, off, 0), shadow := s.u.shadow[i := 0]))
      else s
  }

  /** The first `k` registers of a scan. */
  function ScanUpTo(u: Uio, size: u32, k: nat, n: Serving): (s: Scan)
    requires u.Shaped() && k <= COUNT
    ensures s.u.Shaped()
  {
    if k == 0 then Scan(true, u)
    else
      var s := ScanUpTo(u, size, k - 1, n);
      if s.ok then ScanOne(s.u, size, k - 1, n) else s
  }

  /** `poll_write_registers`. */
  function PollWrites(u: Uio, size: u32, n: Serving): (s: Scan)
    requires u.Shaped()
    ensures s.u.Shaped()
  {
    ScanUpTo(u, size, COUNT, n)
  }

  /** Registers published by name; the configuration space follows, up to the end of the device. */
  const READ_OFFSETS: seq<u64> :=
    [MAGIC_VALUE, VERSION, DEVICE_ID, VENDOR_ID, DEVICE_FEATURES, QUEUE_NUM_MAX,
     INTERRUPT_STATUS, STATUS, CONFIG_GENERATION]

  const DEVICE_END := 0x200

  predicate IsPublished(off: u64) {
    off in READ_OFFSETS || (CONFIG <= off < DEVICE_END && off % 4 == 0)
  }

  /** `refresh_read_registers`: what the guest reads is stored from the device. */
  function Publish(u: Uio, size: u32): (r: Uio)
    requires u.Shaped()
    ensures r.Shaped()
  {
    u.(words := seq(WINDOW_WORDS, k requires 0 <= k < WINDOW_WORDS =>
                      if IsPublished(4 * k) then RegRead(u.regs, u.ident, size, 4 * k) else u.words[k]))
  }

  /** `flush_pending_irq_level`: the deferred level goes to the control word. */
  function Flush(u: Uio): (r: Uio)
    requires u.Shaped()
    ensures r.Shaped()
  {
    match u.pending
    case None => u
    case Some(level) => u.(words := Put(u.words, IRQ_CONTROL, if level then 1 else 0), pending := None)
  }

  /** One turn of `fabric_run` after an interrupt woke it. */
  function Turn(u: Uio, size: u32, n: Serving): (s: Scan)
    requires u.Shaped()
    ensures s.u.Shaped()
  {
    var s := PollWrites(u, size, n);
    if s.ok then Scan(true, Flush(Publish(s.u, size))) else s
  }

  // ---- Deferred interrupt ----

  /** Nothing but `Flush` writes the control word, and the deferred level always has its cause pending. */
  lemma ScanOneIrq(u: Uio, size: u32, i: nat, n: Serving, level: bool)
    requires u.Shaped() && i < COUNT
    requires Caused(Driven(level, u.pending), u.regs.isr)
    ensures var s := ScanOne(u, size, i, n);
            && At(s.u.words, IRQ_CONTROL) == At(u.words, IRQ_CONTROL)
            && Caused(Driven(level, s.u.pending), s.u.regs.isr)
  {
    hide Callback;
    var off := WRITE_OFFSETS[i];
    var v := At(u.words, off);
    CallbackKeepsCause(u.regs, size, Driven(level, u.pending), off, v, n);
  }

  lemma {:induction false} ScanIrq(u: Uio, size: u32, k: nat, n: Serving, level: bool)
    requires u.Shaped() && k <= COUNT
    requires Caused(Driven(level, u.pending), u.regs.isr)
    ensures var s := ScanUpTo(u, size, k, n);
            && At(s.u.words, IRQ_CONTROL) == At(u.words, IRQ_CONTROL)
            && Caused(Driven(level, s.u.pending), s.u.regs.isr)
  {
    hide ScanOne, Caused, Driven;
    if k > 0 {
      ScanIrq(u, size, k - 1, n, level);
      var s := ScanUpTo(u, size, k - 1, n);
      if s.ok {
        ScanOneIrq(s.u, size, k - 1, n, level);
      }
    }
  }

  /** The level the control word asks for. */
  function Level(words: seq<u32>): bool
    requires |words| == WINDOW_WORDS
  {
    At(words, IRQ_CONTROL) != 0
  }

  /** Between turns: nothing deferred, and an asserted control word has its cause pending and published. */
  ghost predicate Settled(u: Uio) {
    u.Shaped() && u.pending.None? && Caused(Level(u.words), u.regs.isr) && At(u.words, INTERRUPT_STATUS) == u.regs.isr
  }

  /**
   A turn that ends keeps the line settled. The control word is written last, with the
   level the scan asked for last; and when it asserts the line, the interrupt status
   published just before it already shows the cause.
   */
  lemma TurnSettles(u: Uio, size: u32, n: Serving)
    requires Settled(u) && Turn(u, size, n).ok
    ensures var t := Turn(u, size, n).u;
            var published := Publish(PollWrites(u, size, n).u, size);
            && Settled(t)
            && Level(t.words) == Driven(Level(u.words), PollWrites(u, size, n).u.pending)
            && At(published.words, INTERRUPT_STATUS) == At(t.words, INTERRUPT_STATUS)
            && (Level(t.words) ==> At(published.words, INTERRUPT_STATUS) % 2 == 1)
  {
    hide ScanUpTo;
    ScanIrq(u, size, COUNT, n, Level(u.words));
  }

  /** What a turn drives: the level deferred last, as 1 or 0 in the control word; nothing deferred, nothing driven. */
  lemma TurnDrives(u: Uio, size: u32, n: Serving)
    requires u.Shaped() && Turn(u, size, n).ok
    ensures var pending := PollWrites(u, size, n).u.pending;
            At(Turn(u, size, n).u.words, 0x200) ==
            match pending case None => At(u.words, 0x200) case Some(level) => if level then 1 else 0
  {
    hide ScanUpTo;
    ScanLeavesControl(u, size, COUNT, n);
    assert !IsPublished(0x200);
  }

  lemma {:induction false} ScanLeavesControl(u: Uio, size: u32, k: nat, n: Serving)
    requires u.Shaped() && k <= COUNT
    ensures At(ScanUpTo(u, size, k, n).u.words, 0x200) == At(u.words, 0x200)
  {
    hide Callback, Reload;
    if k > 0 {
      ScanLeavesControl(u, size, k - 1, n);
    }
  }

  /** The levels asked for by the first `k` registers of a scan, in order. */
  function Requests(u: Uio, size: u32, k: nat, n: Serving): seq<bool>
    requires u.Shaped() && k <= COUNT
  {
    if k == 0 then []
    else
      var s := ScanUpTo(u, size, k - 1, n);
      var off := WRITE_OFFSETS[k - 1];
      var earlier := Requests(u, size, k - 1, n);
      if !s.ok || At(s.u.words, off) == s.u.shadow[k - 1] then earlier
      else match Callback(s.u.regs, size, off, At(s.u.words, off), n).irq
        case None => earlier
        case Some(level) => earlier + [level]
  }

  /** A line driven by each request in turn. */
  function DrivenByAll(level: bool, requests: seq<bool>): bool {
    if requests == [] then level
    else Driven(DrivenByAll(level, requests[..|requests| - 1]), Some(requests[|requests| - 1]))
  }

  /** Deferring keeps only the latest level, which is where driving the line every time would leave it. */
  lemma {:induction false} DeferringIsDriving(u: Uio, size: u32, k: nat, n: Serving, level: bool)
    requires u.Shaped() && k <= COUNT && u.pending.None?
    ensures Driven(level, ScanUpTo(u, size, k, n).u.pending) == DrivenByAll(level, Requests(u, size, k, n))
  {
    hide ScanUpTo, Requests;
    if k == 0 {
      NothingRequested(u, size, n);
    } else {
      DeferringIsDriving(u, size, k - 1, n, level);
      NextRequest(u, size, k, n);
      var before, after := Requests(u, size, k - 1, n), Requests(u, size, k, n);
      if after != before {
        assert after[..|after| - 1] == before;
      }
    }
  }

  lemma NothingRequested(u: Uio, size: u32, n: Serving)
    requires u.Shaped()
    ensures ScanUpTo(u, size, 0, n).u == u && Requests(u, size, 0, n) == []
  {
  }

  /** A register either asks for nothing and defers nothing, or asks for a level that is then the one deferred. */
  lemma NextRequest(u: Uio, size: u32, k: nat, n: Serving)
    requires u.Shaped() && 0 < k <= COUNT
    ensures var before, after := Requests(u, size, k - 1, n), Requests(u, size, k, n);
            var p, p' := ScanUpTo(u, size, k - 1, n).u.pending, ScanUpTo(u, size, k, n).u.pending;
            (after == before && p' == p) || (p'.Some? && after == before + [p'.value])
  {
    hide Callback, ScanOne;
    var s := ScanUpTo(u, size, k - 1, n);
    ScanOnePending(s.u, size, k - 1, n);
  }

  lemma ScanOnePending(u: Uio, size: u32, i: nat, n: Serving)
    requires u.Shaped() && i < COUNT
    ensures var v := At(u.words, WRITE_OFFSETS[i]);
            var irq := Callback(u.regs, size, WRITE_OFFSETS[i], v, n).irq;
            ScanOne(u, size, i, n).u.pending == if v != u.shadow[i] && irq.Some? then irq else u.pending
  {
    hide Callback, Reload;
  }

  const NOTIFY := 13

  lemma ScanOneNotify(u: Uio, size: u32, i: nat, n: Serving)
    requires u.Shaped() && i < COUNT && u.shadow[NOTIFY] == NOTIFY_IDLE
    ensures var s := ScanOne(u, size, i, n);
            && s.u.shadow[NOTIFY] == NOTIFY_IDLE
            && At(s.u.words, QUEUE_NOTIFY) == if i == NOTIFY then NOTIFY_IDLE else At(u.words, QUEUE_NOTIFY)
  {
    hide Callback, Reload;
    assert WRITE_OFFSETS[NOTIFY] == QUEUE_NOTIFY;
  }

  /**
   The notify register is re-armed by the scan that dispatches it: after a scan, failed
   or not, that got past it, register and shadow are idle again.
   */
  lemma {:induction false} ScanRearmsNotify(u: Uio, size: u32, k: nat, n: Serving)
    requires u.Shaped() && k <= COUNT && u.shadow[NOTIFY] == NOTIFY_IDLE
    ensures var s := ScanUpTo(u, size, k, n);
            && s.u.shadow[NOTIFY] == NOTIFY_IDLE
            && (s.ok && k > NOTIFY ==> At(s.u.words, QUEUE_NOTIFY) == NOTIFY_IDLE)
            && (k <= NOTIFY ==> At(s.u.words, QUEUE_NOTIFY) == At(u.words, QUEUE_NOTIFY))
  {
    hide ScanOne;
    if k > 0 {
      ScanRearmsNotify(u, size, k - 1, n);
      var s := ScanUpTo(u, size, k - 1, n);
      if s.ok {
        ScanOneNotify(s.u, size, k - 1, n);
      }
    }
  }

  const STATUS_INDEX := 14

  lemma ScanOneStatus(u: Uio, size: u32, i: nat, n: Serving)
    requires u.Shaped() && i < COUNT && u.shadow[STATUS_INDEX] == u.regs.status
    ensures var s := ScanOne(u, size, i, n);
            && s.u.shadow[STATUS_INDEX] == s.u.regs.status
            && (i == STATUS_INDEX ==> At(s.u.words, STATUS) == s.u.shadow[STATUS_INDEX])
  {
    hide Reload, QueueWrite;
    assert WRITE_OFFSETS[STATUS_INDEX] == STATUS;
  }

  lemma {:induction false} ScanStatus(u: Uio, size: u32, k: nat, n: Serving)
    requires u.Shaped() && k <= COUNT && u.shadow[STATUS_INDEX] == u.regs.status
    ensures var s := ScanUpTo(u, size, k, n);
            && s.u.shadow[STATUS_INDEX] == s.u.regs.status
            && (s.ok && k == COUNT ==> At(s.u.words, STATUS) == s.u.regs.status)
  {
    hide ScanOne;
    if k > 0 {
      ScanStatus(u, size, k - 1, n);
      var s := ScanUpTo(u, size, k - 1, n);
      if s.ok {
        ScanOneStatus(s.u, size, k - 1, n);
      }
    }
  }

  /**
   What the daemon publishes and drives never looks like a guest write: the next scan finds
   the window as this one left it.
   */
  lemma PublishingIsSilent(u: Uio, size: u32, n: Serving, i: nat)
    requires u.Shaped() && i < COUNT && u.shadow[STATUS_INDEX] == u.regs.status && Turn(u, size, n).ok
    ensures var s, t := PollWrites(u, size, n).u, Turn(u, size, n).u;
            && At(t.words, WRITE_OFFSETS[i]) == At(s.words, WRITE_OFFSETS[i])
            && t.shadow == s.shadow && t.regs == s.regs && t.shadow[STATUS_INDEX] == t.regs.status
  {
    hide ScanUpTo;
    ScanStatus(u, size, COUNT, n);
  }

  /**
   A status write that falls between the scan and the publication is overwritten by it,
   and so reaches the device exactly when it would have changed nothing.
   */
  lemma LateStatusWrite(u: Uio, size: u32, v: u32)
    requires u.Shaped() && u.shadow[STATUS_INDEX] == u.regs.status
    ensures var r := Publish(u.(words := Put(u.words, STATUS, v)), size);
            && At(r.words, STATUS) == r.shadow[STATUS_INDEX]
            && (At(r.words, STATUS) == v <==> v == u.regs.status)
  {
  }

  /**
   So a driver that reports itself ready in that moment is not heard: window, shadow and
   device say what they said.
   */
  lemma DriverOkIsOverwritten(ident: Ident, size: u32)
    ensures var regs := Initial(1, size).(status := 3);
            var u := Uio(seq(WINDOW_WORDS, k => if k == STATUS / 4 then 3 else 0),
                         seq(COUNT, j => if j == STATUS_INDEX then 3 else 0), ident, regs, None);
            var r := Publish(u.(words := Put(u.words, STATUS, 7)), size);
            u.Shaped() && At(r.words, STATUS) == 3 == r.shadow[STATUS_INDEX] && r.regs.status == 3
  {
    var regs := Initial(1, size).(status := 3);
    var u := Uio(seq(WINDOW_WORDS, k => if k == STATUS / 4 then 3 else 0),
                 seq(COUNT, j => if j == STATUS_INDEX then 3 else 0), ident, regs, None);
    LateStatusWrite(u, size, 7);
  }

  /** After a turn the guest reads from the window what it would read from the device. */
  lemma WindowShowsDevice(u: Uio, size: u32, n: Serving, off: u64)
    requires u.Shaped() && IsPublished(off) && Turn(u, size, n).ok
    ensures off < 0x1000 && At(Turn(u, size, n).u.words, off) == RegRead(Turn(u, size, n).u.regs, u.ident, size, off)
  {
    hide ScanUpTo, RegRead;
    ScanKeepsIdent(u, size, COUNT, n);
    var k := off / 4;
    assert 4 * k == off && k != IRQ_CONTROL / 4;
  }

  /** Nine registers are published by name, and the configuration space word by word. */
  lemma PublishedOffsets(off: u64)
    ensures IsPublished(off) <==>
            off in {0x000, 0x004, 0x008, 0x00c, 0x010, 0x034, 0x060, 0x070, 0x0fc}
            || (0x100 <= off < 0x200 && off % 4 == 0)
  {
    assert forall k :: 0 <= k < 9 && READ_OFFSETS[k] == off ==> off in READ_OFFSETS;
  }

  /** What each published word holds after a turn: identity, features, queue size, causes, status, configuration. */
  lemma WindowWords(u: Uio, size: u32, n: Serving)
    requires u.Shaped() && Turn(u, size, n).ok
    ensures var t := Turn(u, size, n).u;
            && At(t.words, 0x000) == 0x7472_6976 && At(t.words, 0x004) == 2
            && At(t.words, 0x008) == u.ident.deviceId && At(t.words, 0x00c) == u.ident.vendorId
            && At(t.words, 0x010) == Bank(u.ident.features, t.regs.deviceFeaturesSel)
            && At(t.words, 0x034) == (if t.regs.queueSel < |t.regs.queues| then size else 0)
            && At(t.words, 0x060) == t.regs.isr && At(t.words, 0x070) == t.regs.status && At(t.words, 0x0fc) == 0
            && forall k :: 0 <= k < 64 ==>
                 At(t.words, 0x100 + 4 * k) == if k < |u.ident.config| then u.ident.config[k] else 0
  {
    hide Turn;
    forall off: u64 | IsPublished(off)
      ensures off < 0x1000 && At(Turn(u, size, n).u.words, off) == RegRead(Turn(u, size, n).u.regs, u.ident, size, off)
    {
      WindowShowsDevice(u, size, n, off);
    }
    forall off: u64
      ensures IsPublished(off) <==>
              off in {0x000, 0x004, 0x008, 0x00c, 0x010, 0x034, 0x060, 0x070, 0x0fc}
              || (0x100 <= off < 0x200 && off % 4 == 0)
    {
      PublishedOffsets(off);
    }
    forall k | 0 <= k < 64
      ensures At(Turn(u, size, n).u.words, 0x100 + 4 * k) == if k < |u.ident.config| then u.ident.config[k] else 0
    {
      WindowShowsDevice(u, size, n, 0x100 + 4 * k);
      ReadsShowConfig(Turn(u, size, n).u.regs, u.ident, size, k);
    }
  }

  lemma {:induction false} ScanKeepsIdent(u: Uio, size: u32, k: nat, n: Serving)
    requires u.Shaped() && k <= COUNT
    ensures ScanUpTo(u, size, k, n).u.ident == u.ident
  {
    hide Callback, Reload;
    if k > 0 {
      ScanKeepsIdent(u, size, k - 1, n);
    }
  }

  // ---- The daemon's loop in place ----

  /** The mapped window and its shadows, and the device they belong to. */
  class UioFabric {
    const window: array<u32>
    const shadow: array<u32>
    const dev: VirtioMmio
    var pending: Option<bool>

    constructor (window: array<u32>, shadow: array<u32>, dev: VirtioMmio)
      ensures this.window == window && this.shadow == shadow && this.dev == dev && pending == None
    {
      this.window, this.shadow, this.dev, pending := window, shadow, dev, None;
    }

    ghost predicate Valid()
    {
      window.Length == WINDOW_WORDS && shadow.Length == COUNT && window != shadow
    }

    ghost function Value(): Uio
      reads this, window, shadow, dev, dev.queues
    {
      Uio(window[..], shadow[..], dev.ident, dev.Value(), pending)
    }

    /** `blkd_mmio_write` on this fabric, where interrupt requests are only noted. */
    method DeviceWrite(off: u64, v: u32, n: Serving) returns (ok: bool)
      requires Valid()
      modifies this`pending, dev, dev.queues
      ensures Scan(ok, Value()) == Dispatched(old(Value()), dev.queueSize, off, v, n)
    {
      dev.Write(off, v);
      ok := true;
      if off == STATUS && v == 0 {
        pending := Some(false);
      } else if off == INTERRUPT_ACK {
        pending := Some(false);
      } else if off == QUEUE_NOTIFY {
        if v != 0 || dev.queues.Length == 0 || dev.queues[0].ready == 0 {
          pending := Some(dev.isr % 2 == 1);
        } else {
          dev.queues[0] := dev.queues[0].(lastAvail := n.cursor);
          match n {
            case Broke(_) => ok := false;
            case Done(true, _) =>
              dev.isr := WithBit0(dev.isr);
              pending := Some(true);
            case Done(false, _) => pending := Some(dev.isr % 2 == 1);
          }
        }
      }
    }

    /** After a select, the shadows of the queue registers are loaded from the window. */
    method ReloadShadows()
      requires Valid()
      modifies shadow
      ensures shadow[..] == Reload(window[..], old(shadow[..]))
    {
      for j := 0 to COUNT
        invariant forall k :: 0 <= k < COUNT ==>
                    shadow[k] == if k < j && IsQueueIndex(k) then window[WRITE_OFFSETS[k] / 4] else old(shadow[k])
      {
        if IsQueueIndex(j) {
          shadow[j] := window[WRITE_OFFSETS[j] / 4];
        }
      }
    }

    method PollWriteRegisters(n: Serving) returns (ok: bool)
      requires Valid()
      modifies this`pending, window, shadow, dev, dev.queues
      ensures Scan(ok, Value()) == PollWrites(old(Value()), dev.queueSize, n)
    {
      hide Callback, Reload;
      ghost var start := Value();
      for i := 0 to COUNT
        invariant ScanUpTo(start, dev.queueSize, i, n) == Scan(true, Value())
      {
        ok := PollRegister(i, n);
        if !ok {
          ScanStays(start, dev.queueSize, i + 1, COUNT, n);
          return;
        }
      }
      ok := true;
    }

    method PollRegister(i: nat, n: Serving) returns (ok: bool)
      requires Valid() && i < COUNT
      modifies this`pending, window, shadow, dev, dev.queues
      ensures Scan(ok, Value()) == ScanOne(old(Value()), dev.queueSize, i, n)
    {
      hide Callback, Reload;
      var off := WRITE_OFFSETS[i];
      var value := window[off / 4];
      if value == shadow[i] {
        return true;
      }
      if off == QUEUE_NOTIFY {
        window[off / 4] := NOTIFY_IDLE;
        shadow[i] := NOTIFY_IDLE;
        ok := DeviceWrite(off, value, n);
        return;
      }
      shadow[i] := value;
      ok := DeviceWrite(off, value, n);
      if !ok {
        return;
      }
      if off == QUEUE_SEL {
        ReloadShadows();
      } else if off == INTERRUPT_ACK {
        window[off / 4] := 0;
        shadow[i] := 0;
      }
    }

    /** Named registers first, then the configuration space word by word. */
    method RefreshReadRegisters()
      requires Valid()
      modifies window
      ensures Value() == Publish(old(Value()), dev.queueSize)
    {
      hide RegRead;
      for i := 0 to |READ_OFFSETS|
        invariant forall k :: 0 <= k < WINDOW_WORDS ==>
                    window[k] ==
                        if 4 * k in READ_OFFSETS[..i] then RegRead(dev.Value(), dev.ident, dev.queueSize, 4 * k)
                                 else old(window[k])
      {
        var value := dev.Read(READ_OFFSETS[i]);
        window[READ_OFFSETS[i] / 4] := value;
        assert READ_OFFSETS[..i + 1] == READ_OFFSETS[..i] + [READ_OFFSETS[i]];
      }
      assert READ_OFFSETS[..|READ_OFFSETS|] == READ_OFFSETS;
      var off := CONFIG;
      while off + 4 <= DEVICE_END
        invariant CONFIG <= off <= DEVICE_END && off % 4 == 0
        invariant forall k :: 0 <= k < WINDOW_WORDS ==>
                    window[k] == if 4 * k in READ_OFFSETS || CONFIG <= 4 * k < off
                                 then RegRead(dev.Value(), dev.ident, dev.queueSize, 4 * k) else old(window[k])
      {
        var value := dev.Read(off);
        window[off / 4] := value;
        off := off + 4;
      }
    }

    /** One wake-up of the daemon: scan, publish, and only then drive the interrupt. */
    method RunTurn(n: Serving) returns (ok: bool)
      requires Valid()
      modifies this`pending, window, shadow, dev, dev.queues
      ensures Scan(ok, Value()) == Turn(old(Value()), dev.queueSize, n)
    {
      hide ScanUpTo;
      ok := PollWriteRegisters(n);
      if !ok {
        return;
      }
      RefreshReadRegisters();
      if pending.Some? {
        window[IRQ_CONTROL / 4] := if pending.value then 1 else 0;
        pending := None;
      }
    }
  }

  lemma {:induction false} ScanStays(u: Uio, size: u32, k: nat, m: nat, n: Serving)
    requires u.Shaped() && k <= m <= COUNT && !ScanUpTo(u, size, k, n).ok
    ensures ScanUpTo(u, size, m, n) == ScanUpTo(u, size, k, n)
  {
    hide ScanOne;
    if k < m {
      ScanStays(u, size, k, m - 1, n);
    }
  }
}
