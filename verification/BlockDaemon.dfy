/** The virtio-blk daemon: serving a notification, request by request, in place. */
module BlockDaemon {
  import opened Words
  import opened GuestMemory
  import opened Virtqueue
  import opened BlockImage
  import opened KernelIo
  import opened BlockRequest
  import opened BlockWalk
  import opened BlockTransfer

  /** The daemon's state; `irq` is the interrupt level requested last, if any was. */
  datatype Daemon = Daemon(ram: Ram, disk: Disk, queue: Queue, isr: u32, irq: Option<bool>) {
    /** The queue sizes on which no operation of the daemon is undefined or endless. */
    predicate Sized() {
      queue.num % 0x1_0000 != 0 && queue.num != 0xffff_ffff
    }
  }

  /** The notification loop: still going, given up on, or out of work. */
  datatype Loop = Looping(d: Daemon, usedAny: bool) | Broken(d: Daemon) | Drained(d: Daemon, usedAny: bool)

  /** `blkd_ack_notify`: an interrupt that is still pending is not dropped. */
  function Acknowledge(d: Daemon): Daemon {
    d.(irq := Some(d.isr % 2 == 1))
  }

  function Interrupt(d: Daemon, usedAny: bool): Daemon {
    if usedAny then d.(isr := WithBit0(d.isr), irq := Some(true)) else Acknowledge(d)
  }

  /** One request taken from the ring, processed, and put on the used ring. */
  function ServeOne(d: Daemon, head: u16, flushOk: bool): Loop
    requires d.Sized()
  {
    var r := ProcessChain(d.ram, d.disk, d.queue, head, flushOk);
    if !r.ok then Broken(d.(ram := r.ram, disk := r.disk))
    else
      var posted := AddUsed(r.ram, d.queue, head, r.usedLen);
      var d' := d.(ram := posted.ram, disk := r.disk);
      if !posted.ok then Broken(d')
      else Looping(d'.(queue := d.queue.(lastAvail := Add16(d.queue.lastAvail, 1))), true)
  }

  function LoopTurn(l: Loop, flushOk: bool): Loop
    requires l.Looping? ==> l.d.Sized()
  {
    if !l.Looping? then l
    else match NextAvail(l.d.ram, l.d.queue)
      case DmaError => Broken(l.d)
      case Empty => Drained(l.d, l.usedAny)
      case Head(h) => ServeOne(l.d, h, flushOk)
  }

  lemma TurnKeepsSize(l: Loop, flushOk: bool)
    requires l.Looping? ==> l.d.Sized()
    ensures LoopTurn(l, flushOk).Looping? ==> LoopTurn(l, flushOk).d.Sized()
  {
    hide NextAvail, ProcessChain, AddUsed;
  }

  /** The first `n` turns; `flushes` says how each turn's `fsync` would end. */
  function LoopTurns(d: Daemon, flushes: nat -> bool, n: nat): (l: Loop)
    requires d.Sized()
    ensures l.Looping? ==> l.d.Sized()
  {
    if n == 0 then Looping(d, false)
    else
      TurnKeepsSize(LoopTurns(d, flushes, n - 1), flushes(n - 1));
      LoopTurn(LoopTurns(d, flushes, n - 1), flushes(n - 1))
  }

  /** The whole notification, given that its loop ends within `n` turns. */
  function Notify(d: Daemon, queue: u32, flushes: nat -> bool, n: nat): (bool, Daemon)
    requires queue == 0 && d.queue.ready != 0 ==> d.Sized() && !LoopTurns(d, flushes, n).Looping?
  {
    if queue != 0 || d.queue.ready == 0 then (true, Acknowledge(d))
    else match LoopTurns(d, flushes, n)
      case Broken(d') => (false, d')
      case Drained(d', usedAny) => (true, Interrupt(d', usedAny))
  }

  /** Serving moves the cursor and nothing else of queue or interrupt state. */
  lemma {:induction false} QueueKept(d: Daemon, flushes: nat -> bool, n: nat)
    requires d.Sized()
    ensures var e := LoopTurns(d, flushes, n).d;
            e.queue == d.queue.(lastAvail := e.queue.lastAvail) && e.isr == d.isr && e.irq == d.irq
  {
    hide ProcessChain, NextAvail, AddUsed;
    if n > 0 {
      QueueKept(d, flushes, n - 1);
    }
  }

  /** A loop that has stopped stays as it is. */
  lemma {:induction false} LoopStays(d: Daemon, flushes: nat -> bool, n: nat, m: nat)
    requires d.Sized() && n <= m && !LoopTurns(d, flushes, n).Looping?
    ensures LoopTurns(d, flushes, m) == LoopTurns(d, flushes, n)
  {
    hide ServeOne, NextAvail;
    if n < m {
      LoopStays(d, flushes, n, m - 1);
    }
  }

  /** The running daemon. `direct` is the environment switch for reads straight into guest memory. */
  class Blkd {
    const window: DmaWindow
    const image: ImageFile
    const direct: bool
    var queue: Queue
    var isr: u32
    var irq: Option<bool>

    constructor (window: DmaWindow, image: ImageFile, direct: bool, queueSize: u32)
      ensures this.window == window && this.image == image && this.direct == direct
      ensures queue == Queue(queueSize, 0, 0, 0, 0, 0) && isr == 0 && irq == None
    {
      this.window, this.image, this.direct := window, image, direct;
      queue, isr, irq := Queue(queueSize, 0, 0, 0, 0, 0), 0, None;
    }

    ghost predicate Valid()
      reads window.mem, image.data
    {
      window.mem != image.data && image.data.Length <= INT64_MAX
    }

    ghost function Value(): Daemon
      reads this, window.mem, image.data
    {
      Daemon(window.Value(), image.Value(), queue, isr, irq)
    }

    /**
     A read segment by either path, `fabric_dma_map` and `pread` straight into the
     aperture or `pread` into a buffer and a copy. Success means the same on both. A
     failure leaves memory outside the segment alone, and only the direct path, refused
     by the kernel half way, may have changed it inside. `grown` is whether the buffer
     could be made large enough.
     */
    method ReadData(offset: u64, d: Desc, kernel: seq<Answer>, grown: bool) returns (ok: bool)
      requires Valid()
      modifies window.mem
      ensures var image, before := old(image.Value()), old(window.Value());
              match image.Read(offset, d.len)
              case None => !ok && window.Value() == before
              case Some(b) =>
                && (ok ==> before.Write(d.addr, b) == Some(window.Value()))
                && (!ok ==> forall a: int, n: nat :: Apart(d.addr, d.len, a, n) ==>
                              before.AgreesOn(window.Value(), a, n))
                && (!ok && (!direct || Refused !in kernel) ==> window.Value() == before)
                && (grown && Refused !in kernel ==> (ok <==> before.Write(d.addr, b).Some?))
    {
      if direct {
        var mapped, at := true, 0;
        if d.len != 0 {
          mapped, at := window.DmaOffset(d.addr, d.len);
        }
        if mapped {
          ok := ReadDirect(offset, d, at, kernel);
          return;
        }
      }
      ok := ReadBuffered(offset, d, kernel, grown);
    }

    method ReadDirect(offset: u64, d: Desc, at: nat, kernel: seq<Answer>) returns (ok: bool)
      requires Valid() && at + d.len <= window.mem.Length && (d.len != 0 ==> at == d.addr - window.base)
      modifies window.mem
      ensures var image, before := old(image.Value()), old(window.Value());
              match image.Read(offset, d.len)
              case None => !ok && window.Value() == before
              case Some(b) =>
                && (ok ==> before.Write(d.addr, b) == Some(window.Value()))
                && (ok <==> BytesMoved(kernel, d.len) == d.len)
                && forall a: int, n: nat :: Apart(d.addr, d.len, a, n) ==> before.AgreesOn(window.Value(), a, n)
    {
      ghost var before := window.Value();
      ok := image.BlockRead(offset, window.mem, at, d.len, kernel);
      ghost var read := image.Value().Read(offset, d.len);
      if read.Some? {
        assert ok ==> read.value[..BytesMoved(kernel, d.len)] == read.value;
        assert d.len == 0 ==> window.Value().bytes == before.bytes;
      }
    }

    method ReadBuffered(offset: u64, d: Desc, kernel: seq<Answer>, grown: bool) returns (ok: bool)
      requires Valid()
      modifies window.mem
      ensures var image, before := old(image.Value()), old(window.Value());
              && (ok <==> && grown && BytesMoved(kernel, d.len) == d.len && image.Read(offset, d.len).Some?
                          && before.Write(d.addr, image.Read(offset, d.len).value).Some?)
              && window.Value() == if ok then before.Write(d.addr, image.Read(offset, d.len).value).value else before
    {
      if !grown {
        return false;
      }
      var buf := new u8[d.len](_ => 0);
      ok := image.BlockRead(offset, buf, 0, d.len, kernel);
      if ok {
        assert buf[..] == image.Value().Read(offset, d.len).value;
        ok := window.DmaWrite(d.addr, buf[..]);
      }
    }

    /** What one data descriptor does, for any request kind; `go` is false when the chain is abandoned. */
    method MoveSegment(req: Request, d: Desc, status: u8, dataLen: u32, kernel: seq<Answer>, grown: bool)
      returns (go: bool, status': u8, dataLen': u32)
      requires Valid()
      modifies window.mem, image.data
      // with a kernel that refuses nothing and a buffer that can grow, exactly the specified outcome
      ensures grown && Refused !in kernel ==>
                (if go then Some(Work(window.Value(), image.Value(), status', dataLen')) else None)
                == Segment(req, Work(old(window.Value()), old(image.Value()), status, dataLen), d)
      // with any kernel, a good status still means the specified outcome
      ensures go && status' == S_OK ==>
                Some(Work(window.Value(), image.Value(), status', dataLen'))
                == Segment(req, Work(old(window.Value()), old(image.Value()), status, dataLen), d)
      // and whatever happens, nothing outside the segment and its place on the image changes
      ensures forall a: int, n: nat :: Apart(d.addr, d.len, a, n) ==> old(window.Value()).AgreesOn(window.Value(), a, n)
      ensures var at := Add64(req.offset, dataLen);
              forall p :: 0 <= p < image.data.Length && !(at <= p < at + d.len) ==> image.data[p] == old(image.data[p])
      ensures !go || status != S_OK ==> window.Value() == old(window.Value()) && image.Value() == old(image.Value())
      ensures status != S_OK ==> go && status' != S_OK
      ensures go && (req.kind == T_IN || req.kind == T_OUT) ==> dataLen' == Add32(dataLen, d.len)
    {
      go, status', dataLen' := true, status, dataLen;
      if req.kind == T_IN {
        if !d.DeviceWritable() {
          status' := S_IOERR;
        } else if status == S_OK {
          var moved := ReadData(Add64(req.offset, dataLen), d, kernel, grown);
          if !moved {
            status' := S_IOERR;
          }
        }
        dataLen' := Add32(dataLen, d.len);
      } else if req.kind == T_OUT {
        if d.DeviceWritable() {
          status' := S_IOERR;
        } else if status == S_OK {
          if !grown {
            go := false;
            return;
          }
          var data := window.DmaReadInto(d.addr, d.len);
          if data.None? {
            go := false;
            return;
          }
          assert data.value[..|data.value|] == data.value;
          var stored := image.BlockWrite(Add64(req.offset, dataLen), data.value, kernel);
          if !stored {
            status' := S_IOERR;
          }
        }
        dataLen' := Add32(dataLen, d.len);
      }
    }

    /** `process_chain`: the descriptor loop with its sticky status and 32-bit counts. */
    method Process(head: u16, flushOk: bool) returns (ok: bool, usedLen: u32)
      requires Valid() && queue.num != 0xffff_ffff
      modifies window.mem, image.data
      ensures var r := ProcessChain(old(window.Value()), old(image.Value()), queue, head, flushOk);
              && ok == r.ok && window.Value() == r.ram && image.Value() == r.disk
              && (ok ==> usedLen == r.usedLen)
    {
      hide ReadDesc, Segment, WalkStep;
      ok, usedLen := false, 0;
      var headerDesc := VirtioReadDesc(queue, window, head);
      if headerDesc.None? || !headerDesc.value.HasNext() {
        return;
      }
      var header := window.DmaReadInto(headerDesc.value.addr, 16);
      if header.None? {
        return;
      }
      var req := DecodeHeader(header.value);
      ghost var start := Start(window.Value(), image.Value(), req, headerDesc.value.next);

      var status: u8, dataLen: u32, index: u16, chainSeen: u32 := req.status, 0, headerDesc.value.next, 0;
      var last: Desc;
      while true
        invariant chainSeen <= queue.num
        invariant Walk(queue, req, Walking(Work(window.Value(), image.Value(), status, dataLen), index, chainSeen))
               == Walk(queue, req, start)
        decreases queue.num - chainSeen
      {
        ghost var w := Work(window.Value(), image.Value(), status, dataLen);
        if Add32(chainSeen, 1) > queue.num {
          WalkDeadEnd(queue, req, w, index, chainSeen);
          return;
        }
        var next := VirtioReadDesc(queue, window, index);
        if next.None? {
          WalkDeadEnd(queue, req, w, index, chainSeen);
          return;
        }
        WalkTurn(queue, req, w, index, chainSeen, next.value);
        if !next.value.HasNext() {
          last := next.value;
          break;
        }
        var go: bool;
        go, status, dataLen := MoveSegment(req, next.value, status, dataLen, [], true);
        if !go {
          return;
        }
        index, chainSeen := next.value.next, chainSeen + 1;
      }

      if req.kind == T_FLUSH && !flushOk {
        status := S_IOERR;
      }
      usedLen := if req.kind == T_IN then Add32(dataLen, 1) else 1;
      ok := window.DmaWrite(last.addr, [status]);
    }

    /** `blkd_ack_notify`. */
    method AckNotify()
      modifies this`irq
      ensures irq == Acknowledge(old(Value())).irq
    {
      irq := Some(isr % 2 == 1);
    }

    /** Polls the ring, and polls again up to twenty times when it is empty. */
    method PollRing() returns (r: Poll)
      requires queue.num % 0x1_0000 != 0
      ensures r == NextAvail(window.Value(), queue)
    {
      r := VirtioNextAvail(queue, window);
      var retries := 0;
      while r.Empty? && retries < RETRIES
        invariant r == NextAvail(window.Value(), queue)
      {
        retries := retries + 1;
        r := VirtioNextAvail(queue, window);
      }
    }

    /** `blkd_virtio_notify_queue`; `n` witnesses that the ring runs out of work or fails. */
    method NotifyQueue(index: u32, flushes: nat -> bool, ghost n: nat) returns (ok: bool)
      requires Valid()
      requires index == 0 && queue.ready != 0 ==> Value().Sized() && !LoopTurns(Value(), flushes, n).Looping?
      modifies this, window.mem, image.data
      ensures (ok, Value()) == Notify(old(Value()), index, flushes, n)
    {
      hide ProcessChain, NextAvail, AddUsed;
      if index != 0 || queue.ready == 0 {
        AckNotify();
        return true;
      }
      ghost var start := Value();
      ghost var i := 0;
      var usedAny, turn := false, 0;
      while true
        invariant 0 <= turn == i <= n && Value().Sized()
        invariant LoopTurns(start, flushes, i) == Looping(Value(), usedAny)
        decreases n - i
      {
        ghost var before := Value();
        if n <= i {
          LoopStays(start, flushes, n, i);
        }
        i := i + 1;
        var polled := PollRing();
        assert LoopTurns(start, flushes, i) == LoopTurn(Looping(before, usedAny), flushes(i - 1));
        if !polled.Head? {
          LoopStays(start, flushes, i, n);
          if polled.DmaError? {
            return false;
          }
          break;
        }
        var used := Serve(polled.head, flushes(turn));
        if !used {
          LoopStays(start, flushes, i, n);
          return false;
        }
        usedAny, turn := true, turn + 1;
      }
      if usedAny {
        isr := WithBit0(isr);
        irq := Some(true);
      } else {
        AckNotify();
      }
      ok := true;
    }

    /** One request: the chain, the used element, the cursor. */
    method Serve(head: u16, flushOk: bool) returns (ok: bool)
      requires Valid() && Value().Sized()
      modifies this`queue, window.mem, image.data
      ensures ServeOne(old(Value()), head, flushOk) == if ok then Looping(Value(), true) else Broken(Value())
    {
      hide ProcessChain, AddUsed;
      var usedLen: u32;
      ok, usedLen := Process(head, flushOk);
      if !ok {
        return;
      }
      ok := VirtioAddUsed(queue, window, head, usedLen);
      if ok {
        queue := queue.(lastAvail := Add16(queue.lastAvail, 1));
      }
    }
  }

  lemma WalkDeadEnd(q: Queue, req: Request, w: Work, index: u16, seen: u32)
    requires q.num != 0xffff_ffff && seen <= q.num
    requires seen == q.num || ReadDesc(w.ram, q, index).None?
    ensures Walk(q, req, Walking(w, index, seen)) == Aborted(w)
  {
  }
}
